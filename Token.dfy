/** The Monkey token taxonomy and its canonical display strings. */
module Token {

  /** A closed set of token kinds. Equality is structural, as the derived
      `PartialEq` of the Rust `Token` gives: `Ident` and `Int` compare their text. */
  datatype Token =
    | Illegal
    | Eof
    // identifiers and literals
    | Ident(id: string)
    | Int(digits: string)
    // operators
    | Assign
    | Plus
    // delimiters
    | Comma
    | Semicolon
    | Lparen
    | Rparen
    | Lbrace
    | Rbrace
    // keywords
    | Function
    | Let

  /** The eight single-character structural tokens. */
  predicate IsSymbol(t: Token) {
    t.Assign? || t.Plus? || t.Comma? || t.Semicolon? ||
    t.Lparen? || t.Rparen? || t.Lbrace? || t.Rbrace?
  }

  /** The two keyword tokens. */
  predicate IsKeyword(t: Token) {
    t.Function? || t.Let?
  }

  /** The `Display` rendering: the literal text of `Ident` and `Int`, the one
      character of a structural token, the spelling of a keyword, the empty
      string for `Eof` and a fixed placeholder for `Illegal`. */
  function Render(t: Token): (s: string)
    ensures IsSymbol(t) ==> |s| == 1
    ensures IsKeyword(t) ==> 2 <= |s| <= 3
  {
    match t
    case Illegal => "Illegal"
    case Eof => ""
    case Ident(id) => id
    case Int(digits) => digits
    case Assign => "="
    case Plus => "+"
    case Comma => ","
    case Semicolon => ";"
    case Lparen => "("
    case Rparen => ")"
    case Lbrace => "{"
    case Rbrace => "}"
    case Function => "fn"
    case Let => "let"
  }
}
