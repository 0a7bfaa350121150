/** Lexing a rendered token stream. The text a caller writes is the display
    strings of the tokens, with whitespace between them wherever two tokens
    would otherwise merge into one run; lexing it gives the tokens back. */
module Spelling {
  import opened Bytes
  import opened Token
  import opened Lexer
  import opened LexerProps

  predicate IsSpaceChar(c: char) {
    c as int < 0x80 && IsAsciiWhitespace(c as int as byte)
  }

  /** A gap: a string of ASCII whitespace, possibly empty. */
  predicate IsSpaceText(g: string) {
    forall k :: 0 <= k < |g| ==> IsSpaceChar(g[k])
  }

  /** ASCII text without NUL characters. */
  predicate PlainText(s: string) {
    forall k :: 0 <= k < |s| ==> s[k] as int < 0x80 && s[k] != '\0'
  }

  lemma PlainConcat(x: string, y: string)
    requires PlainText(x) && PlainText(y)
    ensures PlainText(x + y)
  {
    forall k | 0 <= k < |x + y| ensures (x + y)[k] as int < 0x80 && (x + y)[k] != '\0' {
      if k < |x| {
        assert (x + y)[k] == x[k];
      } else {
        assert (x + y)[k] == y[k - |x|];
      }
    }
  }

  /** Plain text is encoded one byte per character, and no byte is 0. */
  lemma PlainBytes(s: string)
    requires PlainText(s)
    ensures |IntoBytes(s)| == |s|
    ensures forall k :: 0 <= k < |s| ==> IntoBytes(s)[k] as int == s[k] as int
    ensures NoNul(IntoBytes(s))
  {
    assert IsAscii(s);
    AsciiIntoBytes(s);
  }

  /** Text `x` followed by text `y` does not continue an identifier run or
      a digit run across the boundary. */
  predicate SeamText(x: string, y: string) {
    |x| == 0 || |y| == 0 ||
    (!(IsWordChar(x[|x| - 1]) && IsWordChar(y[0])) &&
     !(IsDigitChar(x[|x| - 1]) && IsDigitChar(y[0])))
  }

  /** The text of tokens `ts` from the `i`-th on, with `gaps[j]` in front of
      the `j`-th token and the last gap after the last token. */
  function SpellFrom(ts: seq<Token>, gaps: seq<string>, i: nat): string
    requires |gaps| == |ts| + 1 && i <= |ts|
    decreases |ts| - i
  {
    if i == |ts| then gaps[i]
    else gaps[i] + Render(ts[i]) + SpellFrom(ts, gaps, i + 1)
  }

  function Spell(ts: seq<Token>, gaps: seq<string>): string
    requires |gaps| == |ts| + 1
  {
    SpellFrom(ts, gaps, 0)
  }

  /** `TokenizeWhitespace` for a gap written as text: a gap alone lexes to
      `Eof`. */
  lemma TokenizeSpaces(g: string)
    requires IsSpaceText(g)
    ensures Tokenize(IntoBytes(g)) == [Eof]
  {
    assert IsAscii(g);
    AsciiIntoBytes(g);
    TokenizeWhitespace(IntoBytes(g));
  }

  lemma LexableText(t: Token)
    requires Lexable(t)
    ensures |Render(t)| > 0 && PlainText(Render(t))
  {
  }

  /** The first byte of an encoding is a word or digit byte only when the
      first character is the same ASCII word or digit character. */
  lemma FirstByte(y: string)
    requires |y| > 0
    ensures IsWordByte(At(IntoBytes(y), 0)) ==> IsWordChar(y[0])
    ensures IsAsciiDigit(At(IntoBytes(y), 0)) ==> IsDigitChar(y[0])
  {
    assert IntoBytes(y) == EncodeChar(y[0]) + IntoBytes(y[1..]);
    assert At(IntoBytes(y), 0) == EncodeChar(y[0])[0];
  }

  /** Leading whitespace in front of any buffer changes nothing. */
  lemma LeadingSpaces(g: string, rb: seq<byte>)
    requires IsSpaceText(g)
    ensures Tokenize(IntoBytes(g) + rb) == Tokenize(rb)
  {
    assert IsAscii(g);
    AsciiIntoBytes(g);
    var gb := IntoBytes(g);
    assert forall k :: 0 <= k < |gb| ==> gb[k] as int == g[k] as int;
    assert forall k :: 0 <= k < |gb| ==> IsAsciiWhitespace(gb[k]);
    LeadingWhitespace(gb, rb);
  }

  /** A lexable token's rendering followed by text it cannot merge with. */
  lemma TokenThenRest(t: Token, rest: string)
    requires Lexable(t) && SeamText(Render(t), rest)
    ensures Tokenize(IntoBytes(Render(t)) + IntoBytes(rest)) == [t] + Tokenize(IntoBytes(rest))
  {
    var x := Render(t);
    var xb, rb := IntoBytes(x), IntoBytes(rest);
    LexableText(t);
    PlainBytes(x);
    if |rest| > 0 {
      FirstByte(rest);
    }
    assert Seam(xb, rb);
    TokenizeAppend(xb, rb);
    RoundTrip(t);
    assert Tokenize(xb)[..|Tokenize(xb)| - 1] == [t];
  }

  /** One token with the gap in front of it: lexing yields the token and then
      whatever the rest of the text lexes to. */
  lemma ConsToken(g: string, t: Token, rest: string)
    requires IsSpaceText(g) && Lexable(t) && SeamText(Render(t), rest)
    ensures Tokenize(IntoBytes(g + Render(t) + rest)) == [t] + Tokenize(IntoBytes(rest))
  {
    var x := Render(t);
    var gb, xb, rb := IntoBytes(g), IntoBytes(x), IntoBytes(rest);
    assert IntoBytes(g + x + rest) == gb + (xb + rb) by {
      IntoBytesAppend(g + x, rest);
      IntoBytesAppend(g, x);
      AppendAssoc(gb, xb, rb);
    }
    assert Tokenize(gb + (xb + rb)) == Tokenize(xb + rb) by {
      LeadingSpaces(g, xb + rb);
    }
    TokenThenRest(t, rest);
  }

  /** The all-gaps condition of `StreamRoundTrip`: an empty gap only between
      tokens that cannot merge. */
  predicate Separated(ts: seq<Token>, gaps: seq<string>)
    requires |gaps| == |ts| + 1
  {
    forall i :: 0 <= i < |ts| - 1 ==> gaps[i + 1] != [] || SeamText(Render(ts[i]), Render(ts[i + 1]))
  }

  /** The cheap way to meet `Separated`: wherever two tokens touch, one of
      them is a structural token, whose single character ends every run. */
  predicate SymbolSeparated(ts: seq<Token>, gaps: seq<string>)
    requires |gaps| == |ts| + 1
  {
    forall i :: 0 <= i < |ts| - 1 ==> gaps[i + 1] != [] || IsSymbol(ts[i]) || IsSymbol(ts[i + 1])
  }

  lemma SymbolSeams(ts: seq<Token>, gaps: seq<string>)
    requires |gaps| == |ts| + 1 && SymbolSeparated(ts, gaps)
    ensures Separated(ts, gaps)
  {
  }

  /** The `i`-th token's rendering meets the text after it at a seam. */
  lemma SeamAfter(ts: seq<Token>, gaps: seq<string>, i: nat)
    requires |gaps| == |ts| + 1 && i < |ts|
    requires forall j :: 0 <= j < |ts| ==> Lexable(ts[j])
    requires forall j :: 0 <= j < |gaps| ==> IsSpaceText(gaps[j])
    requires Separated(ts, gaps)
    ensures SeamText(Render(ts[i]), SpellFrom(ts, gaps, i + 1))
  {
    var rest := SpellFrom(ts, gaps, i + 1);
    if gaps[i + 1] != [] {
      assert IsSpaceText(gaps[i + 1]);
      assert rest[0] == gaps[i + 1][0];
    } else if i + 1 < |ts| {
      LexableText(ts[i + 1]);
      assert rest[0] == Render(ts[i + 1])[0];
    }
  }

  /** The stream round trip from the `i`-th token on. */
  lemma {:induction false} StreamFrom(ts: seq<Token>, gaps: seq<string>, i: nat)
    requires |gaps| == |ts| + 1 && i <= |ts|
    requires forall j :: 0 <= j < |ts| ==> Lexable(ts[j])
    requires forall j :: 0 <= j < |gaps| ==> IsSpaceText(gaps[j])
    requires Separated(ts, gaps)
    ensures Tokenize(IntoBytes(SpellFrom(ts, gaps, i))) == ts[i..] + [Eof]
    decreases |ts| - i
  {
    if i == |ts| {
      TokenizeSpaces(gaps[i]);
    } else {
      var rest := SpellFrom(ts, gaps, i + 1);
      StreamFrom(ts, gaps, i + 1);
      SeamAfter(ts, gaps, i);
      ConsToken(gaps[i], ts[i], rest);
      DropCons(ts, i);
      AppendAssoc([ts[i]], ts[i + 1..], [Eof]);
    }
  }

  /** Stream round trip: lexing the spelling of lexable tokens separated by
      whitespace gaps yields exactly those tokens, then `Eof`. */
  lemma StreamRoundTrip(ts: seq<Token>, gaps: seq<string>)
    requires |gaps| == |ts| + 1
    requires forall i :: 0 <= i < |ts| ==> Lexable(ts[i])
    requires forall i :: 0 <= i < |gaps| ==> IsSpaceText(gaps[i])
    requires Separated(ts, gaps)
    ensures Tokenize(IntoBytes(Spell(ts, gaps))) == ts + [Eof]
  {
    StreamFrom(ts, gaps, 0);
    assert ts[0..] == ts;
  }

  /** A spelling from the `i`-th token on is plain text. */
  lemma {:induction false} SpellPlainFrom(ts: seq<Token>, gaps: seq<string>, i: nat)
    requires |gaps| == |ts| + 1 && i <= |ts|
    requires forall j :: 0 <= j < |ts| ==> Lexable(ts[j])
    requires forall j :: 0 <= j < |gaps| ==> IsSpaceText(gaps[j])
    ensures PlainText(SpellFrom(ts, gaps, i))
    decreases |ts| - i
  {
    assert IsSpaceText(gaps[i]);
    if i < |ts| {
      SpellPlainFrom(ts, gaps, i + 1);
      LexableText(ts[i]);
      PlainConcat(gaps[i], Render(ts[i]));
      PlainConcat(gaps[i] + Render(ts[i]), SpellFrom(ts, gaps, i + 1));
    }
  }

  lemma LastOfAppend<T>(a: seq<T>, b: seq<T>)
    requires |b| > 0
    ensures |a + b| > 0 && (a + b)[|a + b| - 1] == b[|b| - 1]
  {
  }

  /** A spelling from the `i`-th token on ends with the last gap when that
      gap is not empty. */
  lemma {:induction false} SpellEndsFrom(ts: seq<Token>, gaps: seq<string>, i: nat)
    requires |gaps| == |ts| + 1 && i <= |ts| && gaps[|ts|] != []
    ensures |SpellFrom(ts, gaps, i)| > 0
    ensures SpellFrom(ts, gaps, i)[|SpellFrom(ts, gaps, i)| - 1] == gaps[|ts|][|gaps[|ts|]| - 1]
    decreases |ts| - i
  {
    if i < |ts| {
      SpellEndsFrom(ts, gaps, i + 1);
      LastOfAppend(gaps[i] + Render(ts[i]), SpellFrom(ts, gaps, i + 1));
    }
  }

  /** A spelling is plain text, and it ends with the last gap when that gap
      is not empty. */
  lemma SpellText(ts: seq<Token>, gaps: seq<string>)
    requires |gaps| == |ts| + 1
    requires forall i :: 0 <= i < |ts| ==> Lexable(ts[i])
    requires forall i :: 0 <= i < |gaps| ==> IsSpaceText(gaps[i])
    ensures PlainText(Spell(ts, gaps))
    ensures gaps[|ts|] != [] ==>
              |Spell(ts, gaps)| > 0 &&
              Spell(ts, gaps)[|Spell(ts, gaps)| - 1] == gaps[|ts|][|gaps[|ts|]| - 1]
  {
    SpellPlainFrom(ts, gaps, 0);
    if gaps[|ts|] != [] {
      SpellEndsFrom(ts, gaps, 0);
    }
  }
}
