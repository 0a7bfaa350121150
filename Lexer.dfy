/** The Monkey lexer: a single-pass scanner over an immutable byte buffer with
    one byte of lookahead. The functions give the meaning of one `next_token`
    step and of the whole token stream; the class `Lexer` is the cursor the
    Rust lexer mutates in place, and each of its methods is proved to do what
    those functions say. */
module Lexer {
  import opened Bytes
  import opened Token

  datatype Option<T> = None | Some(value: T)

  /** The first eight arms of `next_token`'s dispatch: the structural token a
      byte stands for. */
  function SymbolToken(b: byte): (t: Option<Token>)
    ensures t.Some? ==> IsSymbol(t.value) && Render(t.value) == [b as int as char]
  {
    if b == 0x3D then Some(Assign)
    else if b == 0x2B then Some(Plus)
    else if b == 0x3B then Some(Semicolon)
    else if b == 0x2C then Some(Comma)
    else if b == 0x28 then Some(Lparen)
    else if b == 0x29 then Some(Rparen)
    else if b == 0x7B then Some(Lbrace)
    else if b == 0x7D then Some(Rbrace)
    else None
  }

  /** The keyword table applied to a finished identifier run: exact,
      case-sensitive spellings become keywords, any other text stays an
      identifier carrying that text. */
  function Keyword(text: string): (t: Token)
    ensures t.Ident? <==> text != "fn" && text != "let"
    ensures t.Ident? ==> t.id == text
  {
    if text == "fn" then Function
    else if text == "let" then Let
    else Ident(text)
  }

  /** The symbol table is exactly the inverse of `Render` on the structural
      tokens: a byte maps to the token rendered as that one character, and a
      byte that maps to nothing is the rendering of no structural token. */
  lemma SymbolTable(b: byte)
    ensures SymbolToken(b).Some? ==>
      IsSymbol(SymbolToken(b).value) && Render(SymbolToken(b).value) == [b as int as char]
    ensures SymbolToken(b).None? ==> forall u :: IsSymbol(u) ==> Render(u) != [b as int as char]
  {
  }

  /** Keyword precedence: exactly `fn` and `let` become keywords, every other
      run stays an identifier, and rendering the result gives the run back. */
  lemma KeywordTable(text: string)
    ensures Keyword(text) == Function <==> text == "fn"
    ensures Keyword(text) == Let <==> text == "let"
    ensures Keyword(text).Ident? <==> text != "fn" && text != "let"
    ensures Render(Keyword(text)) == text
  {
  }

  /** The classification step of `next_token` once whitespace is skipped and
      the cursor is at `p`: the token and the position it leaves behind. */
  function Dispatch(input: seq<byte>, p: nat): (r: (Token, nat))
    ensures p < r.1
    ensures r.0 != Eof ==> r.1 <= |input|
  {
    var c := At(input, p);
    match SymbolToken(c)
    case Some(t) => (t, p + 1)
    case None =>
      if IsWordByte(c) then
        var e := RunEnd(input, p, Word);
        (Keyword(AsciiText(input[p..e])), e)
      else if IsAsciiDigit(c) then
        var e := RunEnd(input, p, Digits);
        (Int(AsciiText(input[p..e])), e)
      else if c == 0 then
        (Eof, p + 1)
      else
        (Illegal, p + 1)
  }

  /** One `next_token` call on a cursor at `pos`: the token it returns and
      the cursor position it leaves behind. Every call moves the cursor
      forward, `Eof` included; only `Eof` can leave it past the end. */
  function Scan(input: seq<byte>, pos: nat): (r: (Token, nat))
    ensures pos < r.1
    ensures r.0 != Eof ==> r.1 <= |input|
  {
    Dispatch(input, RunEnd(input, pos, Spaces))
  }

  /** The recursion behind `TokensFrom`: one call, then the stream from
      where it left the cursor, until the first `Eof`. */
  function Stream(input: seq<byte>, pos: nat): (ts: seq<Token>)
    ensures 1 <= |ts| <= (if pos <= |input| then |input| - pos + 1 else 1)
    ensures ts[|ts| - 1] == Eof
    decreases |input| - pos
  {
    var (t, next) := Scan(input, pos);
    if t == Eof then [Eof] else [t] + Stream(input, next)
  }

  /** The tokens a caller pulls from a cursor at `pos` up to and including
      the first `Eof`. The stream always ends in `Eof`, after at most one
      token per remaining byte. Proofs about the stream use this name, so
      that the recursion in `Stream` is unfolded one step at a time. */
  function TokensFrom(input: seq<byte>, pos: nat): (ts: seq<Token>)
    ensures 1 <= |ts| <= (if pos <= |input| then |input| - pos + 1 else 1)
    ensures ts[|ts| - 1] == Eof
  {
    Stream(input, pos)
  }

  /** The token stream of a freshly constructed lexer. */
  function Tokenize(input: seq<byte>): (ts: seq<Token>)
    ensures 1 <= |ts| <= |input| + 1 && ts[|ts| - 1] == Eof
  {
    TokensFrom(input, 0)
  }

  /** The tokens returned by `n` consecutive `next_token` calls from `pos`,
      with no stop at `Eof`. */
  function Pull(input: seq<byte>, pos: nat, n: nat): (ts: seq<Token>)
    ensures |ts| == n
    ensures n > 0 ==> ts[0] == Scan(input, pos).0
    decreases n
  {
    if n == 0 then [] else [Scan(input, pos).0] + Pull(input, Scan(input, pos).1, n - 1)
  }

  /** Where the cursor is after `n` consecutive `next_token` calls from `pos`. */
  function Cursor(input: seq<byte>, pos: nat, n: nat): nat
    decreases n
  {
    if n == 0 then pos else Cursor(input, Scan(input, pos).1, n - 1)
  }

  /** The scanner state: the buffer, the index of the byte under the cursor,
      the index of the next byte to read, and the lookahead byte itself. */
  class Lexer {
    const input: seq<byte>
    var position: nat
    var readPosition: nat
    var ch: byte

    /** The lookahead is the byte at `position`, or 0 once past the end, and
        `readPosition` is always one ahead. */
    ghost predicate Valid()
      reads this
    {
      readPosition == position + 1 && ch == At(input, position)
    }

    /** `Lexer::new`: own the string's bytes and prime the lookahead. */
    constructor (source: string)
      ensures input == IntoBytes(source)
      ensures Valid()
      ensures position == 0 && readPosition == 1
      ensures ch == if |input| > 0 then input[0] else 0
    {
      input := IntoBytes(source);
      position, readPosition, ch := 0, 0, 0;
      new;
      ReadChar();
    }

    /** Move the cursor to `readPosition` and load its byte, or 0 past the end. */
    method ReadChar()
      modifies this
      ensures position == old(readPosition) && readPosition == position + 1
      ensures ch == At(input, position)
      ensures Valid()
    {
      if readPosition >= |input| {
        ch := 0;
      } else {
        ch := input[readPosition];
      }
      position := readPosition;
      readPosition := readPosition + 1;
    }

    /** Advance past a run of ASCII whitespace. */
    method SkipWhitespace()
      requires Valid()
      modifies this
      ensures Valid()
      ensures position == RunEnd(input, old(position), Spaces)
      ensures forall k :: old(position) <= k < position ==> IsAsciiWhitespace(input[k])
      ensures !IsAsciiWhitespace(ch)
    {
      ghost var end := RunEnd(input, position, Spaces);
      while IsAsciiWhitespace(ch)
        invariant Valid()
        invariant old(position) <= position <= end
        invariant RunEnd(input, position, Spaces) == end
        decreases end - position
      {
        ReadChar();
      }
    }

    /** Consume the maximal run of letters and underscores under the cursor
        and return its text. The slice would panic if the cursor were past
        the end, hence the precondition. */
    method ReadIdent() returns (text: string)
      requires Valid() && position <= |input|
      modifies this
      ensures Valid()
      ensures position == RunEnd(input, old(position), Word)
      ensures old(position) <= position <= |input|
      ensures forall k :: old(position) <= k < position ==> IsWordByte(input[k])
      ensures !IsWordByte(ch)
      ensures IsWordByte(old(ch)) ==> old(position) < position
      ensures text == AsciiText(input[old(position)..position])
    {
      var start := position;
      ghost var end := RunEnd(input, position, Word);
      while IsAsciiAlphabetic(ch) || ch == 0x5F
        invariant Valid()
        invariant start <= position <= end
        invariant RunEnd(input, position, Word) == end
        decreases end - position
      {
        ReadChar();
      }
      text := AsciiText(input[start..position]);
    }

    /** Consume the maximal run of decimal digits under the cursor and
        return its text, with the same precondition as `ReadIdent`. */
    method ReadNumber() returns (digits: string)
      requires Valid() && position <= |input|
      modifies this
      ensures Valid()
      ensures position == RunEnd(input, old(position), Digits)
      ensures old(position) <= position <= |input|
      ensures forall k :: old(position) <= k < position ==> IsAsciiDigit(input[k])
      ensures !IsAsciiDigit(ch)
      ensures IsAsciiDigit(old(ch)) ==> old(position) < position
      ensures digits == AsciiText(input[old(position)..position])
    {
      var start := position;
      ghost var end := RunEnd(input, position, Digits);
      while IsAsciiDigit(ch)
        invariant Valid()
        invariant start <= position <= end
        invariant RunEnd(input, position, Digits) == end
        decreases end - position
      {
        ReadChar();
      }
      digits := AsciiText(input[start..position]);
    }

    /** `next_token`: skip whitespace, then classify the lookahead. The
        identifier and number branches return at once, their runs having
        moved the cursor; every other branch reads one more byte. */
    method NextToken() returns (tok: Token)
      requires Valid()
      modifies this
      ensures Valid()
      ensures (tok, position) == Scan(input, old(position))
    {
      SkipWhitespace();
      var symbol := SymbolToken(ch);
      if symbol.Some? {
        tok := symbol.value;
      } else if IsAsciiAlphabetic(ch) || ch == 0x5F {
        var ident := ReadIdent();
        return Keyword(ident);
      } else if IsAsciiDigit(ch) {
        var number := ReadNumber();
        return Int(number);
      } else if ch == 0 {
        tok := Eof;
      } else {
        tok := Illegal;
      }
      ReadChar();
    }
  }
}
