/** Source text and its tokens: what each kind of token looks like, and which comes first. */
module Lexing {
  import opened Bytes
  import opened Expressions
  import opened Statements
  import opened Tokens

  const MAX_WORD := 8

  /** Text as read: no zero bytes. */
  predicate IsText(t: string) {
    forall i :: 0 <= i < |t| ==> 0 < t[i] as int < 0x100
  }

  function Codes(t: string): (r: seq<Byte>)
    requires IsText(t)
    ensures |r| == |t| && forall i :: 0 <= i < |t| ==> r[i] == t[i] as int && r[i] != 0
  {
    seq(|t|, i requires 0 <= i < |t| => t[i] as int)
  }

  predicate Upper(c: char) {
    'A' <= c <= 'Z'
  }

  predicate Digit(c: char) {
    '0' <= c <= '9'
  }

  /** The length of the word at the start of a text. */
  function WordLength(t: string): (n: nat)
    ensures n <= |t| && (n < |t| ==> !Upper(t[n]))
    ensures forall i :: 0 <= i < n ==> Upper(t[i])
  {
    if t == "" || !Upper(t[0]) then 0 else 1 + WordLength(t[1..])
  }

  function DigitsLength(t: string): (n: nat)
    ensures n <= |t| && (n < |t| ==> !Digit(t[n]))
    ensures forall i :: 0 <= i < n ==> Digit(t[i])
  {
    if t == "" || !Digit(t[0]) then 0 else 1 + DigitsLength(t[1..])
  }

  /** Where the next quotation mark is, from the second character on; the length of the text if there
      is none. */
  function QuoteAt(t: string, i: nat): (j: nat)
    requires i <= |t|
    ensures i <= j <= |t| && (j < |t| ==> t[j] == '"') && forall k :: i <= k < j ==> t[k] != '"'
    decreases |t| - i
  {
    if i == |t| || t[i] == '"' then i else QuoteAt(t, i + 1)
  }

  /** The value of digits, in 16 bits. */
  function DigitsValue(t: string): Int16
    requires forall i :: 0 <= i < |t| ==> Digit(t[i])
  {
    if t == "" then 0
    else
      var tens: int := DigitsValue(t[..|t| - 1]);
      Wrap(tens * 10 + (t[|t| - 1] as int - '0' as int))
  }

  type Lexeme = t: Tok | ValidTok(t) witness Separator

  /** A token and the length of its text, or the text starts with no such token, or reading it would
      overrun a buffer. */
  datatype Lexed = Token(tok: Lexeme, n: nat) | Refused | Overrun

  function LexRemark(t: string): (r: Lexed)
    requires IsText(t)
    ensures r.Token? ==> 0 < r.n <= |t|
  {
    if !("REM" <= t) then Refused
    else if |t| - 2 > 0xff then Overrun
    else Token(Sized(TOK_REMARK, Codes(t[3..]) + [0]), |t|)
  }

  function LexSeparator(t: string): (r: Lexed)
    ensures r.Token? ==> 0 < r.n <= |t|
  {
    if t != "" && t[0] == ',' then Token(Separator, 1) else Refused
  }

  function LexString(t: string): (r: Lexed)
    requires IsText(t)
    ensures r.Token? ==> 0 < r.n <= |t|
  {
    if t == "" || t[0] != '"' then Refused
    else
      var j := QuoteAt(t, 1);
      if j == |t| || j > 0xff then Overrun else Token(Sized(TOK_STRING, Codes(t[1..j]) + [0]), j + 1)
  }

  function LexOperator(t: string): (r: Lexed)
    ensures r.Token? ==> 0 < r.n <= |t|
  {
    if t == "" then Refused
    else if "<=" <= t then Token(Operator(OP_LTEQ), 2)
    else if ">=" <= t then Token(Operator(OP_GTEQ), 2)
    else
      match t[0]
      case '-' => Token(Operator(OP_MINUS), 1)
      case '+' => Token(Operator(OP_PLUS), 1)
      case '*' => Token(Operator(OP_MULT), 1)
      case '=' => Token(Operator(OP_EQUAL), 1)
      case '(' => Token(Operator(OP_LPAREN), 1)
      case ')' => Token(Operator(OP_RPAREN), 1)
      case '<' => Token(Operator(OP_LT), 1)
      case '>' => Token(Operator(OP_GT), 1)
      case _ => Refused
  }

  function LexNumber(t: string): (r: Lexed)
    ensures r.Token? ==> 0 < r.n <= |t|
  {
    var n := DigitsLength(t);
    if n == 0 then Refused else Token(Numeric(DigitsValue(t[..n])), n)
  }

  /** The keywords, in the order of their codes from 1. */
  const KEYWORDS: seq<string> := [
    "PRINT", "LIST", "NEW", "RUN", "END", "GOTO", "FOR", "TO", "NEXT", "GOSUB", "RETURN", "DIM", "IF", "THEN", "JUMPTO", "JUMPSUB"
  ]

  /** The index of a keyword; their number if the word is none. */
  function KeywordIndex(word: string, i: nat): (k: nat)
    requires i <= |KEYWORDS|
    ensures i <= k <= |KEYWORDS| && (k < |KEYWORDS| ==> KEYWORDS[k] == word)
    ensures forall j :: i <= j < k ==> KEYWORDS[j] != word
    decreases |KEYWORDS| - i
  {
    if i == |KEYWORDS| || KEYWORDS[i] == word then i else KeywordIndex(word, i + 1)
  }

  function LexKeyword(t: string): (r: Lexed)
    ensures r.Token? ==> 0 < r.n <= |t|
  {
    var n := WordLength(t);
    var k := KeywordIndex(t[..n], 0);
    if k < |KEYWORDS| then Token(Keyword(k + 1), n) else Refused
  }

  function LexFunction(t: string): (r: Lexed)
    ensures r.Token? ==> 0 < r.n <= |t|
  {
    var n := WordLength(t);
    if t[..n] == "RND" then Token(Func(FUNC_RND), n) else Refused
  }

  /** A single letter is a register; of longer names four letters count. */
  function LexVariable(t: string): (r: Lexed)
    requires IsText(t)
    ensures r.Token? ==> 0 < r.n <= |t|
  {
    var n := WordLength(t);
    if n == 0 then Refused
    else if n == 1 then Token(Letter(t[0] as int - 'A' as int), 1)
    else Token(Sized(TOK_VARIABLE, Codes(t[..if n < VARNAME_SIZE then n else VARNAME_SIZE]) + [0]), n)
  }

  /** The kinds are tried in this order. Words are read into short buffers. */
  function LexOne(t: string): (r: Lexed)
    requires IsText(t)
    ensures r.Token? ==> 0 < r.n <= |t|
  {
    if !LexRemark(t).Refused? then LexRemark(t)
    else if !LexSeparator(t).Refused? then LexSeparator(t)
    else if !LexString(t).Refused? then LexString(t)
    else if !LexOperator(t).Refused? then LexOperator(t)
    else if !LexNumber(t).Refused? then LexNumber(t)
    else if WordLength(t) > MAX_WORD then Overrun
    else if !LexKeyword(t).Refused? then LexKeyword(t)
    else if !LexFunction(t).Refused? then LexFunction(t)
    else LexVariable(t)
  }

  function Trim(t: string): (r: string)
    ensures |r| <= |t| && (r != "" ==> r[0] != ' ') && (IsText(t) ==> IsText(r))
  {
    if t != "" && t[0] == ' ' then Trim(t[1..]) else t
  }

  /** What is left after `n` characters and the spaces behind them. */
  function After(t: string, n: nat): (r: string)
    requires IsText(t) && n <= |t|
    ensures IsText(r) && |r| <= |t| - n
  {
    Trim(t[n..])
  }

  datatype Lexemes = Tokens(ts: seq<Lexeme>) | SyntaxError | Undefined

  /** A whole statement: tokens with spaces between them, but none in front. */
  function LexAll(t: string): Lexemes
    requires IsText(t)
    decreases |t|
  {
    match LexOne(t)
    case Refused => SyntaxError
    case Overrun => Undefined
    case Token(tok, n) =>
      var rest := After(t, n);
      if rest == "" then Tokens([tok])
      else
        match LexAll(rest)
        case Tokens(ts) => Tokens([tok] + ts)
        case SyntaxError => SyntaxError
        case Undefined => Undefined
  }

  /** How many bytes of tokens reading a text produces, up to its end or an error. */
  function LexedSize(t: string): nat
    requires IsText(t)
    decreases |t|
  {
    match LexOne(t)
    case Refused => 0
    case Overrun => 0
    case Token(tok, n) =>
      var rest := After(t, n);
      |TokBytes(tok)| + if rest == "" then 0 else LexedSize(rest)
  }

  /** Tokens read so far, and what the rest gives. */
  function Extend(ts: seq<Lexeme>, r: Lexemes): Lexemes {
    match r
    case Tokens(us) => Tokens(ts + us)
    case SyntaxError => SyntaxError
    case Undefined => Undefined
  }

  /** What the rest of a text, trimmed, gives after some tokens. */
  function LexRest(ts: seq<Lexeme>, rest: string): Lexemes
    requires IsText(rest)
  {
    if rest == "" then Tokens(ts) else Extend(ts, LexAll(rest))
  }

  function RestSize(rest: string): nat
    requires IsText(rest)
  {
    if rest == "" then 0 else LexedSize(rest)
  }

  /** Reading one token more. */
  lemma LexMore(ts: seq<Lexeme>, t: string)
    requires IsText(t)
    ensures LexOne(t).Token? ==>
              var tok, rest := LexOne(t).tok, After(t, LexOne(t).n);
              && Extend(ts, LexAll(t)) == LexRest(ts + [tok], rest)
              && LexedSize(t) == |TokBytes(tok)| + RestSize(rest)
    ensures LexOne(t).Refused? ==> LexAll(t) == SyntaxError
    ensures LexOne(t).Overrun? ==> LexAll(t) == Undefined
  {
    hide LexOne, After, TokBytes;
    if LexOne(t).Token? {
      var tok, rest := LexOne(t).tok, After(t, LexOne(t).n);
      if rest != "" && LexAll(rest).Tokens? {
        assert ts + ([tok] + LexAll(rest).ts) == (ts + [tok]) + LexAll(rest).ts;
      }
    }
  }

  // ----- Spelling -----

  /** What a programmer writes for a token. */
  datatype Spelling =
    | Number(value: Int16)
    | Word(code: Byte)
    | Sign(code: Byte)
    | Rnd
    | Single(letter: nat)
    | Comma
    | Quoted(text: string)
    | Name(word: string)
    | Rem(text: string)

  predicate Reserved(word: string) {
    word in KEYWORDS || word == "RND" || "REM" <= word
  }

  /** Numbers have no sign; names are two to four letters and not reserved; strings have no quotation
      mark. */
  predicate Spellable(x: Spelling) {
    match x
    case Number(value) => value >= 0
    case Word(code) => 1 <= code <= |KEYWORDS|
    case Sign(code) => code <= OP_MULT
    case Rnd => true
    case Single(letter) => letter < NUM_REGISTERS
    case Comma => true
    case Quoted(text) => IsText(text) && '"' !in text && |text| < 0xff
    case Name(word) => 2 <= |word| <= VARNAME_SIZE && (forall i :: 0 <= i < |word| ==> Upper(word[i])) && !Reserved(word)
    case Rem(text) => IsText(text) && |text| < 0xff
  }

  function Decimal(n: nat): (t: string)
    ensures t != "" && forall i :: 0 <= i < |t| ==> Digit(t[i])
  {
    var last := [('0' as int + n % 10) as char];
    if n < 10 then last else Decimal(n / 10) + last
  }

  function SignText(code: Byte): string
    requires code <= OP_MULT
  {
    if code == OP_MINUS then "-"
    else if code == OP_PLUS then "+"
    else if code == OP_EQUAL then "="
    else if code == OP_LPAREN then "("
    else if code == OP_RPAREN then ")"
    else if code == OP_LT then "<"
    else if code == OP_GT then ">"
    else if code == OP_LTEQ then "<="
    else if code == OP_GTEQ then ">="
    else "*"
  }

  function Spell(x: Spelling): string
    requires Spellable(x)
  {
    match x
    case Number(value) => Decimal(value)
    case Word(code) => KEYWORDS[code - 1]
    case Sign(code) => SignText(code)
    case Rnd => "RND"
    case Single(letter) => [('A' as int + letter) as char]
    case Comma => ","
    case Quoted(text) => "\"" + text + "\""
    case Name(word) => word
    case Rem(text) => "REM" + text
  }

  function Meant(x: Spelling): Lexeme
    requires Spellable(x)
  {
    match x
    case Number(value) => Numeric(value)
    case Word(code) => Keyword(code)
    case Sign(code) => Operator(code)
    case Rnd => Func(FUNC_RND)
    case Single(letter) => Letter(letter)
    case Comma => Separator
    case Quoted(text) => Sized(TOK_STRING, Codes(text) + [0])
    case Name(word) => UpperIsText(word); Sized(TOK_VARIABLE, Codes(word) + [0])
    case Rem(text) => Sized(TOK_REMARK, Codes(text) + [0])
  }

  lemma UpperIsText(word: string)
    requires forall i :: 0 <= i < |word| ==> Upper(word[i])
    ensures IsText(word)
  {
  }

  lemma TextJoins(a: string, b: string)
    requires IsText(a) && IsText(b)
    ensures IsText(a + b)
  {
  }

  /** What may follow a token: a space, or the end of the text. */
  predicate Apart(rest: string) {
    rest == "" || rest[0] == ' '
  }

  /** What ends a word, and what ends a number. */
  predicate EndsWord(rest: string) {
    rest == "" || !Upper(rest[0])
  }

  predicate EndsNumber(rest: string) {
    rest == "" || !Digit(rest[0])
  }

  /** What may follow a spelling, with or without a space: nothing that would make it longer. */
  predicate Follows(x: Spelling, rest: string) {
    match x
    case Number(_) => EndsNumber(rest)
    case Word(_) => EndsWord(rest)
    case Rnd => EndsWord(rest)
    case Single(_) => EndsWord(rest)
    case Name(_) => EndsWord(rest)
    case Sign(_) => rest == "" || rest[0] != '='
    case Comma => true
    case Quoted(_) => true
    case Rem(_) => rest == ""
  }

  lemma WordLengthIs(t: string, n: nat)
    requires n <= |t| && (forall i :: 0 <= i < n ==> Upper(t[i])) && (n < |t| ==> !Upper(t[n]))
    ensures WordLength(t) == n
  {
  }

  lemma DigitsLengthIs(t: string, n: nat)
    requires n <= |t| && (forall i :: 0 <= i < n ==> Digit(t[i])) && (n < |t| ==> !Digit(t[n]))
    ensures DigitsLength(t) == n
  {
  }

  lemma WordStops(word: string, rest: string)
    requires (forall i :: 0 <= i < |word| ==> Upper(word[i])) && EndsWord(rest)
    ensures WordLength(word + rest) == |word| && (word + rest)[..|word|] == word
  {
    WordLengthIs(word + rest, |word|);
  }

  lemma DigitsStop(digits: string, rest: string)
    requires (forall i :: 0 <= i < |digits| ==> Digit(digits[i])) && EndsNumber(rest)
    ensures DigitsLength(digits + rest) == |digits| && (digits + rest)[..|digits|] == digits
  {
    DigitsLengthIs(digits + rest, |digits|);
  }

  /** Decimal digits have their value. */
  lemma {:induction false} DecimalValue(n: nat)
    requires n < 0x8000
    ensures DigitsValue(Decimal(n)) == n
  {
    var t := Decimal(n);
    if n < 10 {
      assert t[..|t| - 1] == "";
    } else {
      DecimalValue(n / 10);
      assert t[..|t| - 1] == Decimal(n / 10);
    }
  }

  /** A keyword is known by its length and its first letter. */
  lemma KeywordsApart(j: nat, k: nat)
    requires j < k < |KEYWORDS|
    ensures KEYWORDS[j] != KEYWORDS[k]
  {
    assert KEYWORDS[j] != "" && KEYWORDS[k] != "";
    assert |KEYWORDS[j]| != |KEYWORDS[k]| || KEYWORDS[j][0] != KEYWORDS[k][0];
  }

  lemma RemPrefix(t: string)
    ensures "REM" <= t <==> 3 <= |t| && t[0] == 'R' && t[1] == 'E' && t[2] == 'M'
  {
    if 3 <= |t| {
      assert t[..3] == [t[0], t[1], t[2]] && "REM" == ['R', 'E', 'M'];
    }
  }

  lemma KeywordLetters(k: nat)
    requires k < |KEYWORDS|
    ensures 2 <= |KEYWORDS[k]| <= MAX_WORD && (forall i :: 0 <= i < |KEYWORDS[k]| ==> Upper(KEYWORDS[k][i]))
    ensures !("REM" <= KEYWORDS[k]) && KEYWORDS[k] != "RND"
  {
    RemPrefix(KEYWORDS[k]);
    assert "RND"[1] == 'N' && |KEYWORDS[k]| == 3 && KEYWORDS[k][0] == 'R' ==> KEYWORDS[k][1] == 'U';
  }

  lemma WordRefused(t: string)
    requires IsText(t) && t != "" && Upper(t[0]) && !("REM" <= t)
    ensures LexRemark(t).Refused? && LexSeparator(t).Refused? && LexString(t).Refused?
    ensures LexOperator(t).Refused? && LexNumber(t).Refused?
  {
  }

  lemma NoRemark(word: string, rest: string)
    requires !("REM" <= word) && word != "" && EndsWord(rest)
    ensures !("REM" <= word + rest)
  {
    RemPrefix(word);
    RemPrefix(word + rest);
  }

  /** A word of `n` letters is a keyword, a function or a variable. */
  function LexWord(t: string, n: nat): Lexed
    requires IsText(t) && n <= |t|
  {
    var k := KeywordIndex(t[..n], 0);
    if k < |KEYWORDS| then Token(Keyword(k + 1), n)
    else if t[..n] == "RND" then Token(Func(FUNC_RND), n)
    else LexVariable(t)
  }

  lemma WordCase(t: string, n: nat)
    requires IsText(t) && 0 < n <= MAX_WORD && WordLength(t) == n && !("REM" <= t)
    ensures LexOne(t) == LexWord(t, n)
  {
    assert Upper(t[0]);
    WordRefused(t);
    hide LexRemark, LexSeparator, LexString, LexOperator, LexNumber, LexVariable, KeywordIndex;
  }

  lemma SpelledWord(word: string, rest: string)
    requires 0 < |word| <= MAX_WORD && (forall i :: 0 <= i < |word| ==> Upper(word[i])) && !("REM" <= word)
    requires EndsWord(rest) && IsText(rest)
    ensures var t, n := word + rest, |word|;
            IsText(t) && t[..n] == word && WordLength(t) == n && LexOne(t) == LexWord(t, n)
  {
    hide LexOne, LexWord, WordLength, IsText, EndsWord;
    UpperIsText(word);
    TextJoins(word, rest);
    WordStops(word, rest);
    NoRemark(word, rest);
    WordCase(word + rest, |word|);
  }

  lemma KeywordFound(k: nat)
    requires k < |KEYWORDS|
    ensures KeywordIndex(KEYWORDS[k], 0) == k
  {
    hide KeywordIndex;
    var j := KeywordIndex(KEYWORDS[k], 0);
    if j < k {
      KeywordsApart(j, k);
    }
  }

  lemma NotKeyword(word: string)
    requires word !in KEYWORDS
    ensures KeywordIndex(word, 0) == |KEYWORDS|
  {
    hide KeywordIndex;
  }

  lemma RndNoKeyword()
    ensures "RND" !in KEYWORDS
  {
    forall k | 0 <= k < |KEYWORDS| ensures KEYWORDS[k] != "RND" {
      KeywordLetters(k);
    }
  }

  lemma LettersShort(k: nat)
    requires k < |KEYWORDS|
    ensures |KEYWORDS[k]| != 1
  {
  }

  /** What is spelled is read as what was meant, and nothing more. */
  lemma SpellingLexes(x: Spelling, rest: string)
    requires Spellable(x) && Follows(x, rest) && IsText(rest)
    ensures Spell(x) != "" && Spell(x)[0] != ' ' && IsText(Spell(x) + rest)
    ensures LexOne(Spell(x) + rest) == Token(Meant(x), |Spell(x)|)
  {
    hide LexOne, KeywordIndex, WordLength, Decimal, DigitsLength, DigitsValue, LexVariable, IsText, Reserved;
    match x {
      case Number(value) => NumberLexes(value, rest);
      case Word(code) => KeywordLexes(code - 1, rest);
      case Sign(code) => SignLexes(code, rest);
      case Rnd => RndLexes(rest);
      case Single(letter) => SingleLexes(letter, rest);
      case Comma => CommaLexes(rest);
      case Quoted(text) => QuotedLexes(text, rest);
      case Name(word) => NameLexes(word, rest);
      case Rem(text) => RemLexes(text);
    }
  }

  lemma KeywordLexes(k: nat, rest: string)
    requires k < |KEYWORDS| && EndsWord(rest) && IsText(rest)
    ensures var word := KEYWORDS[k];
            word != "" && word[0] != ' ' && IsText(word + rest) && LexOne(word + rest) == Token(Keyword(k + 1), |word|)
  {
    hide LexOne, KeywordIndex, WordLength, LexVariable;
    KeywordLetters(k);
    KeywordFound(k);
    SpelledWord(KEYWORDS[k], rest);
    assert Upper(KEYWORDS[k][0]);
  }

  lemma RndLexes(rest: string)
    requires EndsWord(rest) && IsText(rest)
    ensures "RND"[0] != ' ' && IsText("RND" + rest) && LexOne("RND" + rest) == Token(Func(FUNC_RND), 3)
  {
    hide LexOne, KeywordIndex, WordLength, LexVariable;
    RndNoKeyword();
    NotKeyword("RND");
    RemPrefix("RND");
    SpelledWord("RND", rest);
  }

  lemma NumberLexes(value: Int16, rest: string)
    requires value >= 0 && EndsNumber(rest) && IsText(rest)
    ensures IsText(Decimal(value) + rest) && Decimal(value)[0] != ' '
    ensures LexOne(Decimal(value) + rest) == Token(Numeric(value), |Decimal(value)|)
  {
    hide Decimal, DigitsLength, DigitsValue;
    var t := Decimal(value) + rest;
    DigitsStop(Decimal(value), rest);
    DecimalValue(value);
    assert t[0] == Decimal(value)[0] && Digit(t[0]);
    assert "REM"[0] == 'R' && "<="[0] == '<' && ">="[0] == '>';
  }

  lemma SignLexes(code: Byte, rest: string)
    requires code <= OP_MULT && (rest == "" || rest[0] != '=') && IsText(rest)
    ensures IsText(SignText(code) + rest) && SignText(code)[0] != ' '
    ensures LexOne(SignText(code) + rest) == Token(Operator(code), |SignText(code)|)
  {
    hide LexNumber, LexKeyword, LexFunction, LexVariable;
    var t := SignText(code) + rest;
    assert t[0] == SignText(code)[0] && (|t| > 1 && |SignText(code)| == 1 ==> t[1] != '=') && (|SignText(code)| == 2 ==> t[1] == '=');
    assert "REM"[0] == 'R' && "<=" == ['<', '='] && ">=" == ['>', '='];
  }

  lemma SingleLexes(letter: nat, rest: string)
    requires letter < NUM_REGISTERS && EndsWord(rest) && IsText(rest)
    ensures var word := [('A' as int + letter) as char];
            && IsText(word + rest) && word[0] != ' ' && LexOne(word + rest) == Token(Letter(letter), 1)
  {
    hide LexOne, KeywordIndex;
    var word := [('A' as int + letter) as char];
    forall k | 0 <= k < |KEYWORDS| ensures KEYWORDS[k] != word {
      LettersShort(k);
    }
    NotKeyword(word);
    SpelledWord(word, rest);
  }

  lemma CommaLexes(rest: string)
    requires IsText(rest)
    ensures IsText("," + rest) && LexOne("," + rest) == Token(Separator, 1)
  {
    hide LexString, LexOperator, LexNumber, LexKeyword, LexFunction, LexVariable;
    assert "REM"[0] == 'R' && ("," + rest)[0] == ',';
  }

  lemma QuotedLexes(text: string, rest: string)
    requires IsText(text) && '"' !in text && |text| < 0xff && IsText(rest)
    ensures var s := "\"" + text + "\"";
            s != "" && IsText(s + rest) && s[0] != ' ' && LexOne(s + rest) == Token(Sized(TOK_STRING, Codes(text) + [0]), |s|)
  {
    hide LexOperator, LexNumber, LexKeyword, LexFunction, LexVariable;
    var t := "\"" + text + "\"" + rest;
    var j := QuoteAt(t, 1);
    assert "REM"[0] == 'R' && t[0] == '"' && t[|text| + 1] == '"';
    assert forall k :: 1 <= k < |text| + 1 ==> t[k] == text[k - 1];
    assert j == |text| + 1 && t[1..j] == text;
  }

  lemma NameLexes(word: string, rest: string)
    requires Spellable(Name(word)) && EndsWord(rest) && IsText(rest)
    ensures IsText(word + rest) && word[0] != ' ' && LexOne(word + rest) == Token(Meant(Name(word)), |word|)
  {
    hide LexOne, KeywordIndex;
    NotKeyword(word);
    SpelledWord(word, rest);
    assert Upper(word[0]);
  }

  lemma RemLexes(text: string)
    requires IsText(text) && |text| < 0xff
    ensures var s := "REM" + text; s != "" && s[0] != ' ' && IsText(s + "") && LexOne(s + "") == Token(Sized(TOK_REMARK, Codes(text) + [0]), |s|)
  {
    var s := "REM" + text;
    assert s + "" == s && s[3..] == text && s[..3] == "REM";
  }

  // ----- Statements -----

  /** Spellings that make a statement: a remark comes last. */
  predicate Statement(xs: seq<Spelling>) {
    xs != [] && forall i :: 0 <= i < |xs| ==> Spellable(xs[i]) && (xs[i].Rem? ==> i == |xs| - 1)
  }

  /** The text of a statement, with a space between tokens. */
  function Source(xs: seq<Spelling>): string
    requires Statement(xs)
  {
    if |xs| == 1 then Spell(xs[0]) else Spell(xs[0]) + (" " + Source(xs[1..]))
  }

  predicate AllSpellable(xs: seq<Spelling>) {
    forall i :: 0 <= i < |xs| ==> Spellable(xs[i])
  }

  function Meanings(xs: seq<Spelling>): seq<Lexeme>
    requires AllSpellable(xs)
  {
    if xs == [] then [] else [Meant(xs[0])] + Meanings(xs[1..])
  }

  lemma TrimSpace(t: string, rest: string)
    requires IsText(t + rest) && Apart(rest) && (rest != "" ==> 1 < |rest| && rest[1] != ' ')
    ensures After(t + rest, |t|) == if rest == "" then "" else rest[1..]
  {
    assert (t + rest)[|t|..] == rest;
    if rest != "" {
      assert Trim(rest[1..]) == rest[1..];
    }
  }

  lemma LexStep(t: string, tok: Lexeme, n: nat)
    requires IsText(t) && LexOne(t) == Token(tok, n)
    ensures n <= |t|
    ensures var rest := After(t, n);
            && (rest == "" ==> LexAll(t) == Tokens([tok]))
            && (rest != "" && LexAll(rest).Tokens? ==> LexAll(t) == Tokens([tok] + LexAll(rest).ts))
  {
    hide LexOne, After;
  }

  /** Reading the text of a statement gives the tokens that were meant. */
  lemma {:induction false} SourceLexes(xs: seq<Spelling>)
    requires Statement(xs)
    ensures IsText(Source(xs)) && Source(xs) != "" && Source(xs)[0] != ' '
    ensures LexAll(Source(xs)) == Tokens(Meanings(xs))
  {
    hide LexOne, LexAll, Spell, Meant, Spellable, After, IsText;
    NoText();
    if |xs| == 1 {
      SpellingLexes(xs[0], "");
      assert Spell(xs[0]) + "" == Spell(xs[0]) && Meanings(xs[1..]) == [];
      TrimSpace(Spell(xs[0]), "");
      LexStep(Spell(xs[0]), Meant(xs[0]), |Spell(xs[0])|);
    } else {
      SourceLexes(xs[1..]);
      var rest := " " + Source(xs[1..]);
      SpacedText(Source(xs[1..]));
      SpellingLexes(xs[0], rest);
      TrimSpace(Spell(xs[0]), rest);
      assert rest[1..] == Source(xs[1..]);
      LexStep(Spell(xs[0]) + rest, Meant(xs[0]), |Spell(xs[0])|);
    }
  }

  lemma NoText()
    ensures IsText("") && Apart("")
  {
  }

  lemma SpacedText(t: string)
    requires IsText(t)
    ensures IsText(" " + t) && Apart(" " + t)
  {
  }

  // ----- Any spacing -----

  function Blanks(n: nat): (t: string)
    ensures |t| == n && forall i :: 0 <= i < n ==> t[i] == ' '
  {
    seq(n, _ => ' ')
  }

  /** The text of spellings with so many spaces behind each. */
  function Spaced(xs: seq<Spelling>, gaps: seq<nat>): string
    requires |xs| == |gaps| && AllSpellable(xs)
  {
    if xs == [] then "" else Spell(xs[0]) + (Blanks(gaps[0]) + Spaced(xs[1..], gaps[1..]))
  }

  /** Spaces are left out only where nothing runs together. */
  predicate Separated(xs: seq<Spelling>, gaps: seq<nat>)
    requires |xs| == |gaps| && AllSpellable(xs)
  {
    xs == [] || (Follows(xs[0], Blanks(gaps[0]) + Spaced(xs[1..], gaps[1..])) && Separated(xs[1..], gaps[1..]))
  }

  lemma {:induction false} TrimBlanks(n: nat, t: string)
    requires t == "" || t[0] != ' '
    ensures Trim(Blanks(n) + t) == t
    decreases n
  {
    if 0 < n {
      TrimBlanks(n - 1, t);
      assert (Blanks(n) + t)[1..] == Blanks(n - 1) + t;
    } else {
      assert Blanks(0) + t == t;
    }
  }

  lemma BlanksText(n: nat, t: string)
    requires IsText(t)
    ensures IsText(Blanks(n) + t)
  {
  }

  lemma AfterBlanks(word: string, n: nat, t: string)
    requires IsText(word + (Blanks(n) + t)) && (t == "" || t[0] != ' ')
    ensures After(word + (Blanks(n) + t), |word|) == t
  {
    assert (word + (Blanks(n) + t))[|word|..] == Blanks(n) + t;
    TrimBlanks(n, t);
  }

  /** However tokens are spaced, the text is read as what was meant. */
  lemma {:induction false} SpacedLexes(xs: seq<Spelling>, gaps: seq<nat>)
    requires |xs| == |gaps| && AllSpellable(xs) && Separated(xs, gaps)
    ensures IsText(Spaced(xs, gaps)) && (xs != [] ==> Spaced(xs, gaps) != "" && Spaced(xs, gaps)[0] != ' ')
    ensures xs == [] ==> Spaced(xs, gaps) == ""
    ensures xs != [] ==> LexAll(Spaced(xs, gaps)) == Tokens(Meanings(xs))
  {
    hide LexOne, LexAll, Spell, Meant, Spellable, After, IsText, Follows, Blanks;
    NoText();
    if xs != [] {
      var t, rest := Spaced(xs[1..], gaps[1..]), Blanks(gaps[0]) + Spaced(xs[1..], gaps[1..]);
      SpacedLexes(xs[1..], gaps[1..]);
      BlanksText(gaps[0], t);
      SpellingLexes(xs[0], rest);
      AfterBlanks(Spell(xs[0]), gaps[0], t);
      LexStep(Spell(xs[0]) + rest, Meant(xs[0]), |Spell(xs[0])|);
      if |xs| == 1 {
        assert Meanings(xs[1..]) == [];
      }
    }
  }

  /** What starts no token: anything but capitals, digits, signs, quotation marks and commas. */
  lemma NoToken(t: string)
    requires IsText(t)
    ensures LexOne(t).Refused? <==> t == "" || (!Upper(t[0]) && !Digit(t[0]) && t[0] !in "+-*=()<>,\"")
  {
    if t != "" {
      RemPrefix(t);
      if Upper(t[0]) {
        assert 0 < WordLength(t);
        assert t[..WordLength(t)] != "";
      }
      assert "<=" == ['<', '='] && ">=" == ['>', '='];
    }
  }
}
