/** The words and signs of the language, written out. */
module Vocabulary {
  import opened Bytes
  import opened Expressions
  import opened Statements
  import opened Programs
  import opened Tokens
  import opened Lexing
  import opened ProgramTexts
  import opened Sources
  import Grammar

  /** Which word is which keyword. */
  lemma Keywords()
    ensures KEYWORDS[KEYWORD_PRINT - 1] == "PRINT" && KEYWORDS[KEYWORD_END - 1] == "END" && KEYWORDS[KEYWORD_GOTO - 1] == "GOTO"
    ensures KEYWORDS[KEYWORD_FOR - 1] == "FOR" && KEYWORDS[KEYWORD_TO - 1] == "TO" && KEYWORDS[KEYWORD_NEXT - 1] == "NEXT"
    ensures KEYWORDS[KEYWORD_GOSUB - 1] == "GOSUB" && KEYWORDS[KEYWORD_RETURN - 1] == "RETURN"
    ensures KEYWORDS[KEYWORD_DIM - 1] == "DIM" && KEYWORDS[KEYWORD_IF - 1] == "IF" && KEYWORDS[KEYWORD_THEN - 1] == "THEN"
    ensures KEYWORDS[KEYWORD_JUMPTO - 1] == "JUMPTO" && KEYWORDS[KEYWORD_JUMPSUB - 1] == "JUMPSUB"
    ensures KEYWORDS[1..4] == ["LIST", "NEW", "RUN"] && |KEYWORDS| == 16
  {
  }

  /** Which sign is which operator, and which comparison. */
  lemma Signs()
    ensures SignText(Code(Plus)) == "+" && SignText(Code(Minus)) == "-" && SignText(Code(Mult)) == "*"
    ensures SignText(ComparisonCode(Equal)) == "=" && SignText(ComparisonCode(Less)) == "<"
    ensures SignText(ComparisonCode(Greater)) == ">" && SignText(ComparisonCode(AtMost)) == "<="
    ensures SignText(ComparisonCode(AtLeast)) == ">="
    ensures SignText(OP_EQUAL) == "=" && SignText(OP_LPAREN) == "(" && SignText(OP_RPAREN) == ")"
  {
  }

  /** The number that digits spell, however large. */
  function Spelled(t: string): nat
    requires forall i :: 0 <= i < |t| ==> Digit(t[i])
  {
    if t == "" then 0
    else
      assert Digit(t[|t| - 1]);
      var last: nat := t[|t| - 1] as int - '0' as int;
      10 * Spelled(t[..|t| - 1]) + last
  }

  /** Reading digits gives the number they spell, in 16 bits. */
  lemma {:induction false} DigitsExact(t: string)
    requires forall i :: 0 <= i < |t| ==> Digit(t[i])
    ensures Grammar.Same16(DigitsValue(t), Spelled(t))
    decreases |t|
  {
    if t != "" {
      assert Digit(t[|t| - 1]);
      hide Grammar.Same16, Wrap;
      var tens: int, n, last := DigitsValue(t[..|t| - 1]), Spelled(t[..|t| - 1]), t[|t| - 1] as int - '0' as int;
      DigitsExact(t[..|t| - 1]);
      AnotherDigit(tens, n, last);
      Grammar.WrapExact(tens * 10 + last, 0);
      Grammar.SameChain(DigitsValue(t), tens * 10 + last, Spelled(t));
    }
  }

  lemma AnotherDigit(x: int, y: int, d: int)
    requires Grammar.Same16(x, y)
    ensures Grammar.Same16(x * 10 + d, 10 * y + d)
  {
  }

  /** Of longer names that are no keywords, the first four letters count, and the others are passed over. */
  lemma LongName(word: string, rest: string)
    requires 4 <= |word| <= 8 && (forall i :: 0 <= i < |word| ==> 'A' <= word[i] <= 'Z') && !Reserved(word)
    requires EndsWord(rest) && IsText(rest)
    ensures IsText(word + rest)
    ensures LexOne(word + rest) == Token(Sized(TOK_VARIABLE, Codes(word[..4]) + [0]), |word|)
  {
    hide LexOne, KeywordIndex, WordLength;
    NotKeyword(word);
    SpelledWord(word, rest);
    assert (word + rest)[..4] == word[..4];
  }

  /** A letter alone is a register, A to Z. */
  lemma Registers(letter: nat, rest: string)
    requires letter < 26 && EndsWord(rest) && IsText(rest)
    ensures "ABCDEFGHIJKLMNOPQRSTUVWXYZ"[letter] as int == 0x41 + letter
    ensures var t := [(0x41 + letter) as char] + rest; IsText(t) && LexOne(t) == Token(Letter(letter), 1)
  {
    hide LexOne, IsText;
    SpellingLexes(Single(letter), rest);
    assert Spell(Single(letter)) == [(0x41 + letter) as char];
  }

  /** Names are one to four capital letters. */
  lemma NamesAreWords(word: string)
    requires IsText(word)
    ensures Letters(Codes(word)) <==> forall i :: 0 <= i < |word| ==> 'A' <= word[i] <= 'Z'
  {
    if Letters(Codes(word)) {
      forall i | 0 <= i < |word| ensures 'A' <= word[i] <= 'Z' {
        assert Codes(word)[i] == word[i] as int;
      }
    }
  }

  /** The room that a text asks of the token buffer is that of its tokens. */
  lemma {:induction false} SizeOfTokens(t: string)
    requires IsText(t)
    ensures match LexAll(t)
            case Tokens(ts) => LexedSize(t) == |AllBytes(ts)|
            case SyntaxError => LexOne(t).Refused? ==> LexedSize(t) == 0
            case Undefined => LexOne(t).Overrun? ==> LexedSize(t) == 0
    decreases |t|
  {
    hide LexOne, TokBytes, After;
    if LexOne(t).Token? {
      var tok, rest := LexOne(t).tok, After(t, LexOne(t).n);
      if rest == "" {
        assert AllBytes([tok]) == TokBytes(tok) + AllBytes([]);
      } else {
        SizeOfTokens(rest);
        if LexAll(rest).Tokens? {
          assert ([tok] + LexAll(rest).ts)[1..] == LexAll(rest).ts;
        }
      }
    }
  }
}
