/** The tokenizer: parsers that read text at a cursor and fill a buffer with tokens. */
module Tokenizers {
  import opened Bytes
  import opened Expressions
  import opened Statements
  import opened Tokens
  import opened Lexing

  const BUFFER_SIZE := 256

  /** The character at a position; the text ends with a zero. */
  function CharAt(input: string, i: nat): char {
    if i < |input| then input[i] else 0 as char
  }

  /** A token fits into the buffer, with room for a terminator. */
  predicate Fits(r: Lexed, d: nat, size: nat) {
    !r.Overrun? && (r.Token? ==> d + |TokBytes(r.tok)| < size)
  }

  /** A parser's outcome: the token that the text starts with is in the buffer and both cursors are
      behind it, or there is no such token and the cursors are where they were. */
  ghost predicate Parsed(r: Lexed, before: seq<Byte>, after: seq<Byte>, d: nat, i: nat, ok: bool, d': nat, i': nat) {
    && |after| == |before| && d <= |before| && after[..d] == before[..d]
    && ok == r.Token?
    && (ok ==> i' == i + r.n && d' == d + |TokBytes(r.tok)| && Here(after, d, TokBytes(r.tok)))
    && (!ok ==> i' == i && d' == d)
  }

  /** The text of a remark, and what is stored of it. */
  lemma RemarkText(t: string)
    requires IsText(t) && !LexRemark(t).Overrun?
    ensures LexRemark(t).Token? <==> CharAt(t, 0) == 'R' && CharAt(t, 1) == 'E' && CharAt(t, 2) == 'M'
    ensures LexRemark(t).Token? ==>
              && 3 <= |t| && LexRemark(t).n == |t| && LexRemark(t).tok.Sized? && LexRemark(t).tok.kind == TOK_REMARK
              && var payload := LexRemark(t).tok.payload;
                 && |payload| == |t| - 2 && payload[|t| - 3] == 0 && |TokBytes(LexRemark(t).tok)| == |t|
                 && forall k :: 3 <= k < |t| ==> payload[k - 3] == t[k] as int
  {
    RemPrefix(t);
  }

  method RemParse(dst: array<Byte>, d: nat, input: string, i: nat) returns (ok: bool, d': nat, i': nat)
    requires IsText(input) && i <= |input| && d < dst.Length && Fits(LexRemark(input[i..]), d, dst.Length)
    modifies dst
    ensures Parsed(LexRemark(input[i..]), old(dst[..]), dst[..], d, i, ok, d', i')
  {
    ghost var t, before := input[i..], dst[..];
    RemarkText(t);
    hide LexRemark, TokBytes, Codes;
    if CharAt(input, i) != 'R' || CharAt(input, i + 1) != 'E' || CharAt(input, i + 2) != 'M' {
      return false, d, i;
    }
    ghost var payload := LexRemark(t).tok.payload;
    i' := i + 3;
    dst[d] := TOK_REMARK;
    dst[d + 1] := 0;
    d' := d + 2;
    while i' < |input|
      invariant i + 3 <= i' <= |input| && d' == d + 2 + (i' - i - 3)
      invariant dst[d] == TOK_REMARK && dst[d + 1] == i' - i - 3
      invariant forall k :: d + 2 <= k < d' ==> dst[k] == payload[k - d - 2]
      invariant dst[..d] == before[..d]
    {
      assert t[i' - i] == input[i'] && payload[i' - i - 3] == t[i' - i] as int;
      dst[d'] := input[i'] as int;
      dst[d + 1] := dst[d + 1] + 1;
      d', i' := d' + 1, i' + 1;
    }
    dst[d'] := 0;
    d' := d' + 1;
    dst[d + 1] := dst[d + 1] + 1;
    SizedHere(dst[..], d, TOK_REMARK, payload);
    return true, d', i';
  }

  lemma SizedHere(s: seq<Byte>, d: nat, kind: Byte, payload: seq<Byte>)
    requires |payload| < 0x100 && kind in {TOK_STRING, TOK_VARIABLE, TOK_ALLOC, TOK_REMARK}
    requires d + 2 + |payload| <= |s| && s[d] == kind && s[d + 1] == |payload|
    requires forall k :: d + 2 <= k < d + 2 + |payload| ==> s[k] == payload[k - d - 2]
    ensures Here(s, d, TokBytes(Sized(kind, payload)))
  {
    assert s[d..d + 2 + |payload|] == [kind, |payload|] + payload;
  }

  method SepParse(dst: array<Byte>, d: nat, input: string, i: nat) returns (ok: bool, d': nat, i': nat)
    requires i <= |input| && d < dst.Length && Fits(LexSeparator(input[i..]), d, dst.Length)
    modifies dst
    ensures Parsed(LexSeparator(input[i..]), old(dst[..]), dst[..], d, i, ok, d', i')
  {
    if CharAt(input, i) != ',' { return false, d, i; }
    dst[d] := TOK_SEPARATOR;
    assert dst[..][d..d + 1] == [TOK_SEPARATOR];
    return true, d + 1, i + 1;
  }

  /** The text of a string, and what is stored of it. */
  lemma StringText(t: string)
    requires IsText(t) && !LexString(t).Overrun?
    ensures LexString(t).Token? <==> CharAt(t, 0) == '"'
    ensures LexString(t).Token? ==>
              && var n := LexString(t).n;
                 && 2 <= n <= |t| && LexString(t).tok.Sized? && LexString(t).tok.kind == TOK_STRING
                 && t[n - 1] == '"' && (forall k :: 1 <= k < n - 1 ==> t[k] != '"')
                 && var payload := LexString(t).tok.payload;
                    && |payload| == n - 1 && payload[n - 2] == 0 && |TokBytes(LexString(t).tok)| == n + 1
                    && forall k :: 1 <= k < n - 1 ==> payload[k - 1] == t[k] as int
  {
  }

  method StringParse(dst: array<Byte>, d: nat, input: string, i: nat) returns (ok: bool, d': nat, i': nat)
    requires IsText(input) && i <= |input| && d < dst.Length && Fits(LexString(input[i..]), d, dst.Length)
    modifies dst
    ensures Parsed(LexString(input[i..]), old(dst[..]), dst[..], d, i, ok, d', i')
  {
    ghost var t, before := input[i..], dst[..];
    StringText(t);
    hide LexString, TokBytes, Codes;
    if CharAt(input, i) != '"' { return false, d, i; }
    ghost var payload, n := LexString(t).tok.payload, LexString(t).n;
    dst[d] := TOK_STRING;
    d' := d + 2;
    i' := i + 1;
    var size := 0;
    while CharAt(input, i') != '"'
      invariant i + 1 <= i' <= i + n - 1 && d' == d + 2 + size && size == i' - i - 1
      invariant dst[d] == TOK_STRING
      invariant forall k :: d + 2 <= k < d' ==> dst[k] == payload[k - d - 2]
      invariant dst[..d] == before[..d]
      decreases i + n - i'
    {
      assert t[i' - i] == input[i'] && payload[i' - i - 1] == t[i' - i] as int;
      dst[d'] := input[i'] as int;
      d', i' := d' + 1, i' + 1;
      size := size + 1;
    }
    assert t[i' - i] == input[i'];
    dst[d'] := 0;
    d' := d' + 1;
    size := size + 1;
    dst[d + 1] := size;
    i' := i' + 1;
    SizedHere(dst[..], d, TOK_STRING, payload);
    return true, d', i';
  }

  method OperatorParse(dst: array<Byte>, d: nat, input: string, i: nat) returns (ok: bool, d': nat, i': nat)
    requires i <= |input| && d < dst.Length && Fits(LexOperator(input[i..]), d, dst.Length)
    modifies dst
    ensures Parsed(LexOperator(input[i..]), old(dst[..]), dst[..], d, i, ok, d', i')
  {
    OperatorCases(input[i..]);
    var c, op: Byte := CharAt(input, i), 0;
    i' := i + 1;
    match c {
      case '-' => op := OP_MINUS;
      case '+' => op := OP_PLUS;
      case '*' => op := OP_MULT;
      case '=' => op := OP_EQUAL;
      case '(' => op := OP_LPAREN;
      case ')' => op := OP_RPAREN;
      case '<' =>
        if CharAt(input, i') == '=' {
          op := OP_LTEQ;
          i' := i' + 1;
        } else {
          op := OP_LT;
        }
      case '>' =>
        if CharAt(input, i') == '=' {
          op := OP_GTEQ;
          i' := i' + 1;
        } else {
          op := OP_GT;
        }
      case _ => return false, d, i;
    }
    dst[d] := TOK_OPERATOR;
    dst[d + 1] := op;
    assert dst[..][d..d + 2] == [TOK_OPERATOR, op];
    return true, d + 2, i';
  }

  lemma OperatorCases(t: string)
    ensures "<=" <= t <==> CharAt(t, 0) == '<' && CharAt(t, 1) == '='
    ensures ">=" <= t <==> CharAt(t, 0) == '>' && CharAt(t, 1) == '='
  {
    if 2 <= |t| {
      assert t[..2] == [t[0], t[1]] && "<=" == ['<', '='] && ">=" == ['>', '='];
    }
  }

  lemma NumberText(t: string)
    ensures LexNumber(t).Token? <==> t != "" && Digit(t[0])
    ensures LexNumber(t).Token? ==>
              && LexNumber(t).n == DigitsLength(t) && LexNumber(t).tok == Numeric(DigitsValue(t[..DigitsLength(t)]))
              && |TokBytes(LexNumber(t).tok)| == 3
  {
  }

  /** Reads digits, in 16-bit arithmetic. */
  method ReadDigits(input: string, i: nat) returns (val: Int16, i': nat)
    requires i < |input| && Digit(input[i])
    ensures var n := DigitsLength(input[i..]); i' == i + n && val == DigitsValue(input[i..][..n])
  {
    hide DigitsValue, Wrap;
    ghost var t := input[i..];
    ghost var n := DigitsLength(t);
    val := input[i] as int - '0' as int;
    i' := i + 1;
    FirstDigit(t);
    assert t[0] == input[i];
    while Digit(CharAt(input, i'))
      invariant i + 1 <= i' <= i + n && val == DigitsValue(t[..i' - i])
      decreases i + n - i'
    {
      assert t[i' - i] == input[i'];
      NextDigit(t, i' - i);
      var tens: int := val;
      tens := Wrap(tens * 10);
      val := Wrap(tens + (input[i'] as int - '0' as int));
      i' := i' + 1;
    }
    DigitAt(input, i, i' - i);
  }

  lemma DigitAt(input: string, i: nat, k: nat)
    requires i <= |input|
    ensures k < DigitsLength(input[i..]) ==> Digit(CharAt(input, i + k))
  {
  }

  method NumericParse(dst: array<Byte>, d: nat, input: string, i: nat) returns (ok: bool, d': nat, i': nat)
    requires i <= |input| && d < dst.Length && Fits(LexNumber(input[i..]), d, dst.Length)
    modifies dst
    ensures Parsed(LexNumber(input[i..]), old(dst[..]), dst[..], d, i, ok, d', i')
  {
    ghost var t, before := input[i..], dst[..];
    NumberText(t);
    hide LexNumber, DigitsValue, DigitsLength, TokBytes, WordBytes, Pattern;
    if !Digit(CharAt(input, i)) { return false, d, i; }
    var val;
    val, i' := ReadDigits(input, i);
    var stored := WordBytes(Pattern(val));
    dst[d] := TOK_NUMERIC;
    dst[d + 1] := stored[0];
    dst[d + 2] := stored[1];
    NumericLies(dst[..], d, val);
    return true, d + 3, i';
  }

  lemma NumericLies(s: seq<Byte>, d: nat, val: Int16)
    requires d + 3 <= |s| && s[d] == TOK_NUMERIC
    requires var stored := WordBytes(Pattern(val)); s[d + 1] == stored[0] && s[d + 2] == stored[1]
    ensures Here(s, d, TokBytes(Numeric(val)))
  {
    hide WordBytes, Pattern;
    assert s[d..d + 3] == [TOK_NUMERIC] + WordBytes(Pattern(val));
  }

  lemma SmallWrap(a: int)
    requires 0 <= a < 10
    ensures Wrap(0 * 10 + a) == a
  {
  }

  lemma FirstDigit(t: string)
    requires t != "" && Digit(t[0])
    ensures 0 < DigitsLength(t) && DigitsValue(t[..1]) == t[0] as int - '0' as int
  {
    hide Wrap;
    assert t[..1][..0] == "";
    SmallWrap(t[0] as int - '0' as int);
  }

  lemma WrapTwice(a: int, b: int)
    ensures Wrap(Wrap(a) + b) == Wrap(a + b)
  {
  }

  /** Wrapping after the multiplication and after the addition is wrapping once. */
  lemma NextDigit(t: string, k: nat)
    requires k < |t| && (forall i :: 0 <= i <= k ==> Digit(t[i]))
    ensures DigitsValue(t[..k + 1]) == var val: int := DigitsValue(t[..k]);
                                       var tens: int := Wrap(val * 10);
                                       Wrap(tens + (t[k] as int - '0' as int))
  {
    hide Wrap;
    assert t[..k + 1][..k] == t[..k];
    var val: int := DigitsValue(t[..k]);
    WrapTwice(val * 10, t[k] as int - '0' as int);
  }

  /** Reads a word into a short buffer. */
  method ReadWord(input: string, i: nat) returns (word: string, i': nat)
    requires i <= |input| && WordLength(input[i..]) <= MAX_WORD
    ensures var n := WordLength(input[i..]); i' == i + n && word == input[i..][..n]
  {
    ghost var t, n := input[i..], WordLength(input[i..]);
    word, i' := "", i;
    while Upper(CharAt(input, i'))
      invariant i <= i' <= i + n && word == t[..i' - i]
      decreases i + n - i'
    {
      assert t[i' - i] == input[i'] && t[..i' - i + 1] == t[..i' - i] + [t[i' - i]];
      word := word + [input[i']];
      i' := i' + 1;
    }
    LetterAt(input, i, i' - i);
  }

  lemma LetterAt(input: string, i: nat, k: nat)
    requires i <= |input|
    ensures k < WordLength(input[i..]) ==> Upper(CharAt(input, i + k))
  {
  }

  method KeywordParse(dst: array<Byte>, d: nat, input: string, i: nat) returns (ok: bool, d': nat, i': nat)
    requires i <= |input| && d < dst.Length && WordLength(input[i..]) <= MAX_WORD && Fits(LexKeyword(input[i..]), d, dst.Length)
    modifies dst
    ensures Parsed(LexKeyword(input[i..]), old(dst[..]), dst[..], d, i, ok, d', i')
  {
    var word;
    word, i' := ReadWord(input, i);
    KeywordText(input[i..], word);
    hide LexKeyword, WordLength, TokBytes;
    ghost var index := KeywordIndex(word, 0);
    for k := 0 to |KEYWORDS|
      invariant k <= index && dst[..] == old(dst[..])
    {
      if word == KEYWORDS[k] {
        assert k == index;
        dst[d] := TOK_KEYWORD;
        dst[d + 1] := k + 1;
        PairLies(dst[..], d, Keyword(k + 1), TOK_KEYWORD, k + 1);
        return true, d + 2, i';
      }
    }
    return false, d, i;
  }

  lemma KeywordText(t: string, word: string)
    requires word == t[..WordLength(t)]
    ensures var k := KeywordIndex(word, 0);
            LexKeyword(t) == if k < |KEYWORDS| then Token(Keyword(k + 1), WordLength(t)) else Refused
  {
    hide KeywordIndex;
  }

  lemma PairLies(s: seq<Byte>, d: nat, tok: Tok, kind: Byte, code: Byte)
    requires d + 2 <= |s| && s[d] == kind && s[d + 1] == code
    requires (tok == Keyword(code) && kind == TOK_KEYWORD) || (tok == Letter(code) && kind == TOK_REGISTER)
    ensures Here(s, d, TokBytes(tok)) && |TokBytes(tok)| == 2
  {
    assert s[d..d + 2] == [kind, code];
  }

  method FuncParse(dst: array<Byte>, d: nat, input: string, i: nat) returns (ok: bool, d': nat, i': nat)
    requires i <= |input| && d < dst.Length && WordLength(input[i..]) <= MAX_WORD && Fits(LexFunction(input[i..]), d, dst.Length)
    modifies dst
    ensures Parsed(LexFunction(input[i..]), old(dst[..]), dst[..], d, i, ok, d', i')
  {
    var word;
    word, i' := ReadWord(input, i);
    if word != "RND" { return false, d, i; }
    dst[d] := TOK_FUNC;
    dst[d + 1] := FUNC_RND;
    assert dst[..][d..d + 2] == [TOK_FUNC, FUNC_RND];
    return true, d + 2, i';
  }

  /** The text of a register, and of a name. */
  lemma LetterText(t: string)
    requires IsText(t)
    ensures LexVariable(t).Token? <==> Upper(CharAt(t, 0))
    ensures Upper(CharAt(t, 0)) && !Upper(CharAt(t, 1)) ==> LexVariable(t) == Token(Letter(t[0] as int - 'A' as int), 1)
  {
    hide Codes;
    if t != "" && Upper(t[0]) {
      WordTwo(t);
    }
  }

  lemma WordTwo(t: string)
    requires t != "" && Upper(t[0])
    ensures 1 <= WordLength(t) && (2 <= WordLength(t) <==> Upper(CharAt(t, 1)))
  {
    if 1 < |t| {
      assert t[1..][0] == t[1];
    }
  }

  lemma NameText(t: string)
    requires IsText(t) && Upper(CharAt(t, 0)) && Upper(CharAt(t, 1))
    ensures var n := WordLength(t);
            var m := if n < VARNAME_SIZE then n else VARNAME_SIZE;
            && 2 <= n && LexVariable(t).Token? && LexVariable(t).n == n
            && LexVariable(t).tok.Sized? && LexVariable(t).tok.kind == TOK_VARIABLE
            && var payload := LexVariable(t).tok.payload;
               && |payload| == m + 1 && payload[m] == 0 && |TokBytes(LexVariable(t).tok)| == m + 3
               && forall k :: 0 <= k < m ==> payload[k] == t[k] as int
  {
    hide WordLength;
    WordTwo(t);
  }

  /** Reads a name and stores its first letters. */
  method StoreName(dst: array<Byte>, d: nat, input: string, i: nat, ghost payload: seq<Byte>) returns (size: nat, i': nat)
    requires i <= |input|
    requires var m := if WordLength(input[i..]) < VARNAME_SIZE then WordLength(input[i..]) else VARNAME_SIZE;
             && d + m < dst.Length && m < |payload| && forall k :: 0 <= k < m ==> payload[k] == input[i..][k] as int
    modifies dst
    ensures var n := WordLength(input[i..]); i' == i + n && size == if n < VARNAME_SIZE then n else VARNAME_SIZE
    ensures forall k :: 0 <= k < dst.Length && !(d <= k < d + size) ==> dst[k] == old(dst[k])
    ensures forall k :: d <= k < d + size ==> dst[k] == payload[k - d]
  {
    ghost var t := input[i..];
    ghost var n := WordLength(t);
    hide WordLength, CharAt, Upper;
    size, i' := 0, i;
    while Upper(CharAt(input, i'))
      invariant i <= i' <= i + n && size == if i' - i < VARNAME_SIZE then i' - i else VARNAME_SIZE
      invariant forall k :: d <= k < d + size ==> dst[k] == payload[k - d]
      invariant forall k :: 0 <= k < dst.Length && !(d <= k < d + size) ==> dst[k] == old(dst[k])
      decreases i + n - i'
    {
      CharShift(input, i, i' - i);
      WordStop(t, i' - i);
      if size < VARNAME_SIZE {
        dst[d + size] := CharAt(input, i') as int;
        size := size + 1;
      }
      i' := i' + 1;
    }
    LetterAt(input, i, i' - i);
  }

  /** Reads a name, of which four letters are stored. */
  method NameParse(dst: array<Byte>, d: nat, input: string, i: nat) returns (d': nat, i': nat)
    requires IsText(input) && i <= |input| && d < dst.Length && Fits(LexVariable(input[i..]), d, dst.Length)
    requires Upper(CharAt(input, i)) && Upper(CharAt(input, i + 1))
    modifies dst
    ensures Parsed(LexVariable(input[i..]), old(dst[..]), dst[..], d, i, true, d', i')
  {
    ghost var t, before := input[i..], dst[..];
    NameText(t);
    hide LexVariable, TokBytes, Codes, WordLength, IsText, CharAt, Upper, Parsed;
    ghost var payload := LexVariable(t).tok.payload;
    var size;
    size, i' := StoreName(dst, d + 2, input, i, payload);
    dst[d + 2 + size] := 0;
    size := size + 1;
    dst[d] := TOK_VARIABLE;
    dst[d + 1] := size;
    d' := d + 2 + size;
    SizedHere(dst[..], d, TOK_VARIABLE, payload);
    ParsedHere(LexVariable(t), before, dst[..], d, i, d', i');
  }

  lemma ParsedHere(r: Lexed, before: seq<Byte>, after: seq<Byte>, d: nat, i: nat, d': nat, i': nat)
    requires r.Token? && |after| == |before| && d <= |before| && forall k :: 0 <= k < d ==> after[k] == before[k]
    requires i' == i + r.n && d' == d + |TokBytes(r.tok)| && Here(after, d, TokBytes(r.tok))
    ensures Parsed(r, before, after, d, i, true, d', i')
  {
    hide Here, TokBytes;
  }

  lemma CharShift(input: string, i: nat, k: nat)
    requires i <= |input|
    ensures CharAt(input, i + k) == CharAt(input[i..], k)
  {
  }

  lemma WordStop(t: string, k: nat)
    requires k <= WordLength(t) && Upper(CharAt(t, k))
    ensures k < WordLength(t) <= |t| && CharAt(t, k) == t[k]
  {
    hide WordLength;
  }

  method VariableParse(dst: array<Byte>, d: nat, input: string, i: nat) returns (ok: bool, d': nat, i': nat)
    requires IsText(input) && i <= |input| && d < dst.Length && Fits(LexVariable(input[i..]), d, dst.Length)
    modifies dst
    ensures Parsed(LexVariable(input[i..]), old(dst[..]), dst[..], d, i, ok, d', i')
  {
    ghost var t, before := input[i..], dst[..];
    LetterText(t);
    CharShift(input, i, 0);
    CharShift(input, i, 1);
    hide LexVariable, TokBytes, IsText;
    if Upper(CharAt(input, i)) && !Upper(CharAt(input, i + 1)) {
      var letter := input[i] as int - 'A' as int;
      LetterSize(letter);
      dst[d] := TOK_REGISTER;
      dst[d + 1] := letter;
      PairLies(dst[..], d, Letter(letter), TOK_REGISTER, letter);
      return true, d + 2, i + 1;
    }
    if !Upper(CharAt(input, i)) { return false, d, i; }
    d', i' := NameParse(dst, d, input, i);
    return true, d', i';
  }

  lemma LetterSize(letter: Byte)
    ensures |TokBytes(Letter(letter))| == 2
  {
  }

  /** The first token of a text. */
  method TokenizeString(dst: array<Byte>, d: nat, input: string, i: nat) returns (error: int, d': nat, i': nat)
    requires IsText(input) && i <= |input| && IsText(input[i..]) && d < dst.Length && Fits(LexOne(input[i..]), d, dst.Length)
    modifies dst
    ensures error == if LexOne(input[i..]).Token? then 0 else ERROR_SYNTAX
    ensures Parsed(LexOne(input[i..]), old(dst[..]), dst[..], d, i, error == 0, d', i')
  {
    hide LexRemark, LexSeparator, LexString, LexOperator, LexNumber, LexKeyword, LexFunction, LexVariable, IsText, TokBytes, Here,
         WordLength;
    var ok;
    ok, d', i' := RemParse(dst, d, input, i);
    if ok { return 0, d', i'; }
    ok, d', i' := SepParse(dst, d, input, i);
    if ok { return 0, d', i'; }
    ok, d', i' := StringParse(dst, d, input, i);
    if ok { return 0, d', i'; }
    ok, d', i' := OperatorParse(dst, d, input, i);
    if ok { return 0, d', i'; }
    ok, d', i' := NumericParse(dst, d, input, i);
    if ok { return 0, d', i'; }
    ok, d', i' := KeywordParse(dst, d, input, i);
    if ok { return 0, d', i'; }
    ok, d', i' := FuncParse(dst, d, input, i);
    if ok { return 0, d', i'; }
    ok, d', i' := VariableParse(dst, d, input, i);
    if ok { return 0, d', i'; }
    return ERROR_SYNTAX, d, i;
  }

  method SkipSpaces(input: string, i: nat) returns (i': nat)
    requires i <= |input|
    ensures i <= i' <= |input| && input[i'..] == Trim(input[i..])
  {
    hide Trim;
    i' := i;
    TrimStep(input, i');
    while CharAt(input, i') == ' '
      invariant i <= i' <= |input| && Trim(input[i'..]) == Trim(input[i..])
      decreases |input| - i'
    {
      TrimStep(input, i');
      i' := i' + 1;
    }
    TrimStep(input, i');
  }

  lemma TrimStep(input: string, i: nat)
    requires i <= |input|
    ensures CharAt(input, i) == ' ' ==> i < |input| && Trim(input[i..]) == Trim(input[i + 1..])
    ensures CharAt(input, i) != ' ' ==> Trim(input[i..]) == input[i..]
  {
    if i < |input| {
      assert input[i..][1..] == input[i + 1..];
    }
  }

  lemma AfterIs(input: string, i: nat, n: nat)
    requires IsText(input) && i + n <= |input| && IsText(input[i..])
    ensures After(input[i..], n) == Trim(input[i + n..])
  {
    hide Trim;
    assert input[i..][n..] == input[i + n..];
  }

  lemma TokensMore(ts: seq<Lexeme>, tok: Lexeme)
    ensures AllBytes(ts + [tok]) == AllBytes(ts) + TokBytes(tok)
  {
    AllBytesJoin(ts, [tok]);
    assert [tok][1..] == [];
    assert AllBytes([tok]) == TokBytes(tok) + AllBytes([]);
    assert TokBytes(tok) + [] == TokBytes(tok);
  }

  /** The token read joins the ones before it. */
  lemma TokenJoins(before: seq<Byte>, after: seq<Byte>, d: nat, ts: seq<Lexeme>, tok: Lexeme)
    requires d == |AllBytes(ts)| <= |before| == |after| && Here(before, 0, AllBytes(ts))
    requires after[..d] == before[..d] && Here(after, d, TokBytes(tok))
    ensures Here(after, 0, AllBytes(ts + [tok])) && |AllBytes(ts + [tok])| == d + |TokBytes(tok)|
  {
    hide AllBytes, TokBytes;
    TokensMore(ts, tok);
    assert after[0..d] == before[0..d];
    HereJoin(after, 0, AllBytes(ts), TokBytes(tok));
  }

  /** One token more. */
  method TokenizeNext(dst: array<Byte>, d: nat, input: string, i: nat, ghost ts: seq<Lexeme>, ghost goal: Lexemes)
    returns (error: int, d': nat, i': nat, ghost ts': seq<Lexeme>)
    requires IsText(input) && i <= |input| && IsText(input[i..]) && goal == Extend(ts, LexAll(input[i..])) && goal != Undefined
    requires d == |AllBytes(ts)| && d + LexedSize(input[i..]) < dst.Length && Here(dst[..], 0, AllBytes(ts))
    modifies dst
    ensures error != 0 ==> error == ERROR_SYNTAX && goal == SyntaxError
    ensures error == 0 ==>
              && i < i' <= |input| && IsText(input[i'..]) && IsText(Trim(input[i'..])) && LexRest(ts', Trim(input[i'..])) == goal
              && d' == |AllBytes(ts')| && Here(dst[..], 0, AllBytes(ts')) && d' + RestSize(Trim(input[i'..])) < dst.Length
  {
    hide LexOne, LexAll, LexedSize, LexRest, RestSize, Trim, IsText, Here, TokBytes, AllBytes, After;
    ghost var t, before := input[i..], dst[..];
    LexMore(ts, t);
    error, d', i' := TokenizeString(dst, d, input, i);
    ts' := ts;
    if error == 0 {
      ts' := ts + [LexOne(t).tok];
      TokenJoins(before, dst[..], d, ts, LexOne(t).tok);
      SuffixText(input, i');
      AfterIs(input, i, LexOne(t).n);
    }
  }

  lemma SuffixText(input: string, i: nat)
    requires IsText(input) && i <= |input|
    ensures IsText(input[i..]) && IsText(Trim(input[i..]))
  {
    hide Trim;
  }

  lemma NoTokens(goal: Lexemes, s: seq<Byte>)
    ensures AllBytes([]) == [] && Here(s, 0, []) && Extend([], goal) == goal
  {
    assert goal.Tokens? ==> [] + goal.ts == goal.ts;
  }

  /** Turns a statement into tokens with a terminator, or reports a syntax error. */
  method Tokenize(dst: array<Byte>, input: string) returns (error: int)
    requires IsText(input) && LexAll(input) != Undefined && LexedSize(input) < BUFFER_SIZE == dst.Length
    modifies dst
    ensures LexAll(input) == SyntaxError ==> error == ERROR_SYNTAX
    ensures LexAll(input).Tokens? ==> error == 0 && Here(dst[..], 0, AllBytes(LexAll(input).ts) + [TOK_TERMINATOR])
  {
    hide LexOne, LexAll, LexedSize, LexRest, RestSize, Trim, IsText, Here, TokBytes, AllBytes, After, CharAt, Extend;
    ghost var ts: seq<Lexeme>, goal := [], LexAll(input);
    var d: nat, i: nat := 0, 0;
    assert input[0..] == input;
    NoTokens(goal, dst[..]);
    error, d, i, ts := TokenizeNext(dst, 0, input, 0, ts, goal);
    if error != 0 { return error; }
    while true
      invariant i <= |input| && IsText(input[i..]) && IsText(Trim(input[i..])) && LexRest(ts, Trim(input[i..])) == goal
      invariant d == |AllBytes(ts)| && Here(dst[..], 0, AllBytes(ts)) && d + RestSize(Trim(input[i..])) < dst.Length
      decreases |input| - i
    {
      i := SkipSpaces(input, i);
      RestCases(ts, input, i);
      if CharAt(input, i) == 0 as char { break; }
      error, d, i, ts := TokenizeNext(dst, d, input, i, ts, goal);
      if error != 0 { return error; }
    }
    ghost var before := dst[..];
    dst[d] := TOK_TERMINATOR;
    Terminated(before, dst[..], ts);
    return 0;
  }

  lemma RestCases(ts: seq<Lexeme>, input: string, i: nat)
    requires IsText(input) && i <= |input| && IsText(input[i..])
    ensures CharAt(input, i) == 0 as char <==> input[i..] == ""
    ensures input[i..] == "" ==> LexRest(ts, input[i..]) == Tokens(ts) && RestSize(input[i..]) == 0
    ensures input[i..] != "" ==>
              LexRest(ts, input[i..]) == Extend(ts, LexAll(input[i..])) && RestSize(input[i..]) == LexedSize(input[i..])
  {
    hide LexAll, LexedSize;
  }

  lemma Terminated(before: seq<Byte>, after: seq<Byte>, ts: seq<Lexeme>)
    requires var d := |AllBytes(ts)|; d < |before| && Here(before, 0, AllBytes(ts)) && after == before[d := TOK_TERMINATOR]
    ensures Here(after, 0, AllBytes(ts) + [TOK_TERMINATOR])
  {
    hide AllBytes, Here;
    var d := |AllBytes(ts)|;
    HereFrame(before, after, 0, AllBytes(ts));
    EndLies(after, d);
    HereJoin(after, 0, AllBytes(ts), [TOK_TERMINATOR]);
  }

  lemma EndLies(s: seq<Byte>, d: nat)
    requires d < |s| && s[d] == TOK_TERMINATOR
    ensures Here(s, d, [TOK_TERMINATOR])
  {
  }
}