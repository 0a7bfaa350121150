/** The unit test of the lexer: a six-line Monkey program and the tokens a
    caller pulls from it, proved once about the token-stream function and
    once about the class driven call by call. */
module LexerTest {
  import opened Bytes
  import opened Token
  import opened Lexer
  import opened LexerProps
  import opened Spelling

  // The test's raw-string input, one constant per source line; the last
  // line holds the indentation in front of the closing delimiter.
  const Line1: string := "let five = 5;\n"
  const Line2: string := "        let ten = 10;\n"
  const Line3a: string := "        let add = "
  const Line3b: string := "fn(x, "
  const Line3c: string := "y) {\n"
  const Line4: string := "            x + y;\n"
  const Line5: string := "        };\n"
  const Line6a: string := "        let result = "
  const Line6b: string := "add(five, "
  const Line6c: string := "ten);\n"
  const Line7: string := "        "

  const TestInput: string :=
    Line1 + (Line2 + (Line3a + (Line3b + (Line3c + (Line4 + (Line5 + (Line6a + (Line6b + (Line6c + Line7)))))))))

  // The tokens of each line, without the final Eof.
  const Tokens1: seq<Token> := [Let, Ident("five"), Assign, Int("5"), Semicolon]
  const Tokens2: seq<Token> := [Let, Ident("ten"), Assign, Int("10"), Semicolon]
  const Tokens3a: seq<Token> := [Let, Ident("add"), Assign]
  const Tokens3b: seq<Token> := [Function, Lparen, Ident("x"), Comma]
  const Tokens3c: seq<Token> := [Ident("y"), Rparen, Lbrace]
  const Tokens4: seq<Token> := [Ident("x"), Plus, Ident("y"), Semicolon]
  const Tokens5: seq<Token> := [Rbrace, Semicolon]
  const Tokens6a: seq<Token> := [Let, Ident("result"), Assign]
  const Tokens6b: seq<Token> := [Ident("add"), Lparen, Ident("five"), Comma]
  const Tokens6c: seq<Token> := [Ident("ten"), Rparen, Semicolon]

  /** The test's expected sequence, the 36 tokens of the program and then
      `Eof`, written as the blocks its six lines contribute. */
  const TestTokens: seq<Token> :=
    Tokens1 + (Tokens2 + (Tokens3a + (Tokens3b + (Tokens3c + (Tokens4 + (Tokens5 +
    (Tokens6a + (Tokens6b + (Tokens6c + [Eof])))))))))

  /** A line of the program lexes to the tokens it spells, then `Eof`. */
  lemma LineTokens(line: string, ts: seq<Token>, gaps: seq<string>)
    requires |gaps| == |ts| + 1 && Spell(ts, gaps) == line
    requires forall i :: 0 <= i < |ts| ==> Lexable(ts[i])
    requires forall i :: 0 <= i < |gaps| ==> IsSpaceText(gaps[i])
    requires SymbolSeparated(ts, gaps)
    ensures Tokenize(IntoBytes(line)) == ts + [Eof]
    ensures gaps[|ts|] != [] ==> EndsInSpace(line)
  {
    SymbolSeams(ts, gaps);
    StreamRoundTrip(ts, gaps);
    SpellText(ts, gaps);
    if gaps[|ts|] != [] {
      assert IsSpaceText(gaps[|ts|]);
    }
  }

  /** ASCII text free of NUL whose last character is whitespace. */
  predicate EndsInSpace(x: string) {
    PlainText(x) && |x| > 0 && IsSpaceChar(x[|x| - 1])
  }

  /** Text ending in whitespace, free of NUL, is lexed independently of what
      follows it: its tokens before `Eof`, then those of the rest. */
  lemma {:induction false} JoinLines(x: string, xs: seq<Token>, y: string, ys: seq<Token>)
    requires EndsInSpace(x)
    requires Tokenize(IntoBytes(x)) == xs + [Eof]
    requires Tokenize(IntoBytes(y)) == ys
    ensures Tokenize(IntoBytes(x + y)) == xs + ys
  {
    PlainBytes(x);
    IntoBytesAppend(x, y);
    var a := IntoBytes(x);
    assert a[|a| - 1] as int == x[|x| - 1] as int;
    TokenizeAppend(a, IntoBytes(y));
    assert (xs + [Eof])[..|xs + [Eof]| - 1] == xs;
  }

  lemma Line1Tokens()
    ensures Tokenize(IntoBytes(Line1)) == Tokens1 + [Eof]
    ensures EndsInSpace(Line1)
  {
    var gaps := ["", " ", " ", " ", "", "\n"];
    assert Spell(Tokens1, gaps) == Line1;
    assert forall i :: 0 <= i < |Tokens1| ==> Lexable(Tokens1[i]);
    assert forall i :: 0 <= i < |gaps| ==> IsSpaceText(gaps[i]);
    assert SymbolSeparated(Tokens1, gaps);
    assert gaps[|Tokens1|] != [];
    LineTokens(Line1, Tokens1, gaps);
  }

  lemma Line2Tokens()
    ensures Tokenize(IntoBytes(Line2)) == Tokens2 + [Eof]
    ensures EndsInSpace(Line2)
  {
    var gaps := ["        ", " ", " ", " ", "", "\n"];
    assert Spell(Tokens2, gaps) == Line2;
    assert forall i :: 0 <= i < |Tokens2| ==> Lexable(Tokens2[i]);
    assert forall i :: 0 <= i < |gaps| ==> IsSpaceText(gaps[i]);
    assert SymbolSeparated(Tokens2, gaps);
    assert gaps[|Tokens2|] != [];
    LineTokens(Line2, Tokens2, gaps);
  }

  lemma Line3aTokens()
    ensures Tokenize(IntoBytes(Line3a)) == Tokens3a + [Eof]
    ensures EndsInSpace(Line3a)
  {
    var gaps := ["        ", " ", " ", " "];
    assert Spell(Tokens3a, gaps) == Line3a;
    assert forall i :: 0 <= i < |Tokens3a| ==> Lexable(Tokens3a[i]);
    assert forall i :: 0 <= i < |gaps| ==> IsSpaceText(gaps[i]);
    assert SymbolSeparated(Tokens3a, gaps);
    assert gaps[|Tokens3a|] != [];
    LineTokens(Line3a, Tokens3a, gaps);
  }

  lemma Line3bTokens()
    ensures Tokenize(IntoBytes(Line3b)) == Tokens3b + [Eof]
    ensures EndsInSpace(Line3b)
  {
    var gaps := ["", "", "", "", " "];
    assert Spell(Tokens3b, gaps) == Line3b;
    assert forall i :: 0 <= i < |Tokens3b| ==> Lexable(Tokens3b[i]);
    assert forall i :: 0 <= i < |gaps| ==> IsSpaceText(gaps[i]);
    assert SymbolSeparated(Tokens3b, gaps);
    assert gaps[|Tokens3b|] != [];
    LineTokens(Line3b, Tokens3b, gaps);
  }

  lemma Line3cTokens()
    ensures Tokenize(IntoBytes(Line3c)) == Tokens3c + [Eof]
    ensures EndsInSpace(Line3c)
  {
    var gaps := ["", "", " ", "\n"];
    assert Spell(Tokens3c, gaps) == Line3c;
    assert forall i :: 0 <= i < |Tokens3c| ==> Lexable(Tokens3c[i]);
    assert forall i :: 0 <= i < |gaps| ==> IsSpaceText(gaps[i]);
    assert SymbolSeparated(Tokens3c, gaps);
    assert gaps[|Tokens3c|] != [];
    LineTokens(Line3c, Tokens3c, gaps);
  }

  lemma Line4Tokens()
    ensures Tokenize(IntoBytes(Line4)) == Tokens4 + [Eof]
    ensures EndsInSpace(Line4)
  {
    var gaps := ["            ", " ", " ", "", "\n"];
    assert Spell(Tokens4, gaps) == Line4;
    assert forall i :: 0 <= i < |Tokens4| ==> Lexable(Tokens4[i]);
    assert forall i :: 0 <= i < |gaps| ==> IsSpaceText(gaps[i]);
    assert SymbolSeparated(Tokens4, gaps);
    assert gaps[|Tokens4|] != [];
    LineTokens(Line4, Tokens4, gaps);
  }

  lemma Line5Tokens()
    ensures Tokenize(IntoBytes(Line5)) == Tokens5 + [Eof]
    ensures EndsInSpace(Line5)
  {
    var gaps := ["        ", "", "\n"];
    assert Spell(Tokens5, gaps) == Line5;
    assert forall i :: 0 <= i < |Tokens5| ==> Lexable(Tokens5[i]);
    assert forall i :: 0 <= i < |gaps| ==> IsSpaceText(gaps[i]);
    assert SymbolSeparated(Tokens5, gaps);
    assert gaps[|Tokens5|] != [];
    LineTokens(Line5, Tokens5, gaps);
  }

  lemma Line6aTokens()
    ensures Tokenize(IntoBytes(Line6a)) == Tokens6a + [Eof]
    ensures EndsInSpace(Line6a)
  {
    var gaps := ["        ", " ", " ", " "];
    assert Spell(Tokens6a, gaps) == Line6a;
    assert forall i :: 0 <= i < |Tokens6a| ==> Lexable(Tokens6a[i]);
    assert forall i :: 0 <= i < |gaps| ==> IsSpaceText(gaps[i]);
    assert SymbolSeparated(Tokens6a, gaps);
    assert gaps[|Tokens6a|] != [];
    LineTokens(Line6a, Tokens6a, gaps);
  }

  lemma Line6bTokens()
    ensures Tokenize(IntoBytes(Line6b)) == Tokens6b + [Eof]
    ensures EndsInSpace(Line6b)
  {
    var gaps := ["", "", "", "", " "];
    assert Spell(Tokens6b, gaps) == Line6b;
    assert forall i :: 0 <= i < |Tokens6b| ==> Lexable(Tokens6b[i]);
    assert forall i :: 0 <= i < |gaps| ==> IsSpaceText(gaps[i]);
    assert SymbolSeparated(Tokens6b, gaps);
    assert gaps[|Tokens6b|] != [];
    LineTokens(Line6b, Tokens6b, gaps);
  }

  lemma Line6cTokens()
    ensures Tokenize(IntoBytes(Line6c)) == Tokens6c + [Eof]
    ensures EndsInSpace(Line6c)
  {
    var gaps := ["", "", "", "\n"];
    assert Spell(Tokens6c, gaps) == Line6c;
    assert forall i :: 0 <= i < |Tokens6c| ==> Lexable(Tokens6c[i]);
    assert forall i :: 0 <= i < |gaps| ==> IsSpaceText(gaps[i]);
    assert SymbolSeparated(Tokens6c, gaps);
    assert gaps[|Tokens6c|] != [];
    LineTokens(Line6c, Tokens6c, gaps);
  }

  /** The last line and the indentation after it. */
  lemma LastLines()
    ensures Tokenize(IntoBytes(Line6a + (Line6b + (Line6c + Line7)))) ==
      Tokens6a + (Tokens6b + (Tokens6c + [Eof]))
  {
    assert IsSpaceText(Line7);
    TokenizeSpaces(Line7);
    var text, tokens := Line7, [Eof];
    Line6cTokens();
    JoinLines(Line6c, Tokens6c, text, tokens);
    text, tokens := Line6c + text, Tokens6c + tokens;
    Line6bTokens();
    JoinLines(Line6b, Tokens6b, text, tokens);
    text, tokens := Line6b + text, Tokens6b + tokens;
    Line6aTokens();
    JoinLines(Line6a, Tokens6a, text, tokens);
  }

  /** The function literal and what follows it. */
  lemma MiddleLines()
    ensures Tokenize(IntoBytes(Line3a + (Line3b + (Line3c + (Line4 + (Line5 +
      (Line6a + (Line6b + (Line6c + Line7))))))))) ==
      Tokens3a + (Tokens3b + (Tokens3c + (Tokens4 + (Tokens5 +
      (Tokens6a + (Tokens6b + (Tokens6c + [Eof])))))))
  {
    LastLines();
    var text, tokens := Line6a + (Line6b + (Line6c + Line7)), Tokens6a + (Tokens6b + (Tokens6c + [Eof]));
    Line5Tokens();
    JoinLines(Line5, Tokens5, text, tokens);
    text, tokens := Line5 + text, Tokens5 + tokens;
    Line4Tokens();
    JoinLines(Line4, Tokens4, text, tokens);
    text, tokens := Line4 + text, Tokens4 + tokens;
    Line3cTokens();
    JoinLines(Line3c, Tokens3c, text, tokens);
    text, tokens := Line3c + text, Tokens3c + tokens;
    Line3bTokens();
    JoinLines(Line3b, Tokens3b, text, tokens);
    text, tokens := Line3b + text, Tokens3b + tokens;
    Line3aTokens();
    JoinLines(Line3a, Tokens3a, text, tokens);
  }

  /** The unit test's expectation: lexing the whole program yields exactly
      the listed sequence. */
  lemma GetNextTokenScenario()
    ensures Tokenize(IntoBytes(TestInput)) == TestTokens
  {
    MiddleLines();
    var text := Line3a + (Line3b + (Line3c + (Line4 + (Line5 + (Line6a + (Line6b + (Line6c + Line7)))))));
    var tokens := Tokens3a + (Tokens3b + (Tokens3c + (Tokens4 + (Tokens5 +
      (Tokens6a + (Tokens6b + (Tokens6c + [Eof])))))));
    Line2Tokens();
    JoinLines(Line2, Tokens2, text, tokens);
    text, tokens := Line2 + text, Tokens2 + tokens;
    Line1Tokens();
    JoinLines(Line1, Tokens1, text, tokens);
  }

  /** The driver of the unit test: a fresh lexer over `source` and `n`
      calls, collecting what each returns. */
  method PullTokens(source: string, n: nat) returns (pulled: seq<Token>)
    ensures pulled == Pull(IntoBytes(source), 0, n)
  {
    var lexer := new Lexer(source);
    pulled := [];
    var i := 0;
    while i < n
      invariant 0 <= i <= n
      invariant lexer.Valid() && lexer.input == IntoBytes(source)
      invariant lexer.position == Cursor(lexer.input, 0, i)
      invariant pulled == Pull(lexer.input, 0, i)
    {
      PullSnoc(lexer.input, 0, i);
      var token := lexer.NextToken();
      pulled := pulled + [token];
      i := i + 1;
    }
  }

  /** The unit test: one `next_token` call per listed token on a fresh lexer
      over the program returns exactly the listed tokens. */
  method GetNextToken() returns (pulled: seq<Token>)
    ensures pulled == TestTokens
  {
    GetNextTokenScenario();
    PullUntilEof(IntoBytes(TestInput), 0);
    pulled := PullTokens(TestInput, |TestTokens|);
  }
}
