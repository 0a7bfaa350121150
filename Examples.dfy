/** Small inputs on which the lexer's edge cases show. */
module Examples {
  import opened Bytes
  import opened Token
  import opened Lexer
  import opened LexerProps
  import opened Spelling

  /** Identifier runs hold no digits: `x1` is an identifier and an integer,
      because the seam between `x` and `1` cuts no run. */
  lemma DigitEndsIdent()
    ensures Tokenize(IntoBytes("x1")) == [Ident("x"), Int("1"), Eof]
  {
    var x, one := Ident("x"), Int("1");
    assert Render(x) == "x" && Render(one) == "1";
    assert "x" + "1" == "x1";
    IntoBytesAppend("x", "1");
    TokenThenRest(x, "1");
    NumberRoundTrip(one);
  }

  /** Keywords are matched exactly and case-sensitively against the whole
      run: `Fn` and `lets` are identifiers. */
  lemma KeywordsExact()
    ensures Tokenize(IntoBytes("Fn")) == [Ident("Fn"), Eof]
    ensures Tokenize(IntoBytes("lets")) == [Ident("lets"), Eof]
  {
    var upper, longer := Ident("Fn"), Ident("lets");
    assert Render(upper) == "Fn" && Render(longer) == "lets";
    IdentRoundTrip(upper);
    IdentRoundTrip(longer);
  }

  /** Vertical tab is not ASCII whitespace: it starts no token and is
      returned as `Illegal`. */
  lemma VerticalTabIllegal()
    ensures Tokenize(IntoBytes("\U{000B}")) == [Illegal, Eof]
  {
    var bs := IntoBytes("\U{000B}");
    assert bs == [0x0B];
    SymbolTable(0x0B);
    ScanIllegal(bs, 0, 0);
    ScanPastEnd(bs, 1);
    TokensFromStep(bs, 0, Illegal, 1);
  }

  /** An embedded NUL ends the stream, but not the lexer: the call after it
      goes on scanning the bytes behind it, so the stable end of input holds
      only after the buffer runs out. */
  lemma NulResumes()
    ensures Tokenize([0, 0x78]) == [Eof]
    ensures Pull([0, 0x78], 0, 3) == [Eof, Ident("x"), Eof]
  {
    var bs: seq<byte> := [0, 0x78];
    ScanNul(bs, 0, 0);
    ScanWord(bs, 1, 1, 2);
    assert AsciiText(bs[1..2]) == "x";
    ScanPastEnd(bs, 2);
    PullCons(bs, 0, Eof, 1, 2);
    PullCons(bs, 1, Ident("x"), 2, 1);
    PullCons(bs, 2, Eof, 3, 0);
  }

  /** A non-ASCII character is returned as one `Illegal` per byte of its
      UTF-8 encoding: `é` is two bytes and gives two. */
  lemma NonAsciiIllegal()
    ensures Tokenize(IntoBytes("\U{00E9}")) == [Illegal, Illegal, Eof]
  {
    var bs := IntoBytes("\U{00E9}");
    assert bs == [0xC3, 0xA9];
    HighBytesIllegal(bs, 0);
    assert seq(2, _ => Illegal) == [Illegal, Illegal];
  }

  /** A NUL with nothing behind it but the end of the buffer: the call
      after its `Eof` runs off the end and returns `Eof` as well. */
  lemma NulAtEnd()
    ensures Pull([0x78, 0], 0, 3) == [Ident("x"), Eof, Eof]
  {
    var bs: seq<byte> := [0x78, 0];
    ScanWord(bs, 0, 0, 1);
    assert AsciiText(bs[0..1]) == "x";
    ScanNul(bs, 1, 1);
    ScanPastEnd(bs, 2);
    PullCons(bs, 0, Ident("x"), 1, 2);
    PullCons(bs, 1, Eof, 2, 1);
    PullCons(bs, 2, Eof, 3, 0);
  }
}
