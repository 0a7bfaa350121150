# Monkey lexer in Dafny

A model of the lexer of the Monkey toy language, as written in Rust in
`src/lexer/lexer.rs` and `src/lexer/token.rs`. The lexer is a single-pass
scanner over an immutable byte buffer. It has one byte of lookahead, and `ch`
holds the sentinel 0 once the cursor has passed the end. Each `next_token`
call skips ASCII whitespace and then dispatches on the lookahead byte. That
byte is one of the following:

- one of eight single-byte symbols;
- the start of a maximal run of letters and underscores, which becomes a
  keyword when it is exactly `fn` or `let`;
- the start of a maximal run of decimal digits;
- the 0 sentinel, giving `Eof`;
- anything else, giving `Illegal`.

The files:

- `Bytes.dfy`:
  - the byte type, and the sentinel-reading `At`;
  - the Rust `u8` classes: `is_ascii_whitespace`, `is_ascii_alphabetic`,
    `is_ascii_digit`;
  - `RunEnd`, the end of a maximal run of one class, with its uniqueness,
    append and shift lemmas;
  - `String::into_bytes` as UTF-8 encoding, and the byte-to-character
    conversion of an ASCII slice.
- `Token.dfy`: the `Token` enum, and its `Display` rendering as `Render`.
- `Lexer.dfy`:
  - the pure specification of one `next_token` call (`Dispatch`, `Scan`), of
    the whole token stream (`TokensFrom`, `Tokenize`), and of `n`
    consecutive calls (`Pull`, `Cursor`);
  - the class `Lexer`, with the three fields the Rust `Lexer` mutates in place
    and the five methods `ReadChar`, `SkipWhitespace`, `ReadIdent`,
    `ReadNumber` and `NextToken`. Each method is proved against those
    functions.
- `LexerProps.dfy`: the properties of one call and of the stream:
  - maximal munch and keyword precedence;
  - the single-byte branches and `Illegal`;
  - an embedded NUL, and the stable `Eof` past the end;
  - progress;
  - the round trip between `Display` and lexing, and injectivity of the
    rendering;
  - how the stream of a concatenation splits at a token boundary;
  - whitespace transparency.
- `Spelling.dfy`: the stream round trip. Lexing the display strings of
  lexable tokens, separated by whitespace gaps wherever two of them would
  merge, gives the tokens back.
- `LexerTest.dfy`: the unit test `get_next_token`, proved twice. Once about
  the stream function, line by line of its program. Once by driving the
  class: a fresh `Lexer` and 37 `NextToken` calls.
- `Examples.dfy`: small inputs that show edge cases:
  - `x1` is an identifier followed by an integer;
  - `Fn` and `lets` are identifiers, not keywords;
  - vertical tab is `Illegal`;
  - an `Eof` for an embedded NUL is followed by the tokens after it;
  - a non-ASCII character gives one `Illegal` per byte of its encoding.

One `next_token` call on a cursor at `pos` is modelled as
`Scan(input, pos) = (token, next position)`. Every branch moves the cursor,
including `Eof`, because `next_token` calls `read_char` at the end. The
stream `TokensFrom` stops at the first `Eof`, as the test's loop does.
`Pull` models a caller that keeps calling after `Eof`. Once the buffer has
run out, every further call returns `Eof` (`PullPastEnd`, `PullAfterEof`).
This stable end is proved for buffers without NUL bytes (`PullAfterEof`).
An `Eof` returned for an embedded NUL leaves the cursor inside the buffer
(`ScanNul`). When tokens follow the NUL, the next call returns them
(`Examples.NulResumes`). When only the end of the buffer follows, the calls
after it return `Eof` (`Examples.NulAtEnd`).

## Model

| member | source | states |
|---|---|---|
| Bytes.AsciiClasses | src/lexer/lexer.rs:65 | `is_ascii_whitespace` accepts exactly space, tab, line feed, form feed and carriage return, and not vertical tab; `is_ascii_alphabetic` exactly `A`-`Z` and `a`-`z`; `is_ascii_digit` exactly `0`-`9` (the tests at lines 65, 74 and 81) |
| Bytes.RunEnd | src/lexer/lexer.rs:65-67 | the loop of `read_ident`, `read_number` and `skip_whitespace` stops at the first byte, or the sentinel, outside the class; every byte it passes is in the class |
| Bytes.RunEndUnique | src/lexer/lexer.rs:65-67 | a maximal run is unique: any end whose run holds only class bytes and stops at a non-class byte is `RunEnd` |
| Bytes.RunEndBefore | src/lexer/lexer.rs:65-67 | a run that starts at or before a byte outside its class ends there at the latest |
| Bytes.IntoBytes | src/lexer/lexer.rs:16 | `into_bytes` gives every character at least one byte; `AsciiIntoBytes` and `IntoBytesAppend` give its exact ASCII layout and its behaviour on concatenation |
| Bytes.EncodeChar | src/lexer/lexer.rs:16 | a character is encoded as one byte with its code exactly when it is ASCII, and as 2 to 4 non-ASCII bytes otherwise |
| Bytes.IntoBytesAppend | src/lexer/lexer.rs:16 | encoding a concatenation concatenates the encodings |
| Bytes.AsciiIntoBytes | src/lexer/lexer.rs:16 | an ASCII string is encoded one byte per character, and converting those bytes back gives the string |
| Token.Render | src/lexer/token.rs:30-49 | a structural token renders as one character and a keyword as two or three |
| Lexer.SymbolToken | src/lexer/lexer.rs:38-45 | a byte that one of the eight symbol arms accepts yields a structural token whose `Display` is exactly that byte's character |
| Lexer.Keyword | src/lexer/lexer.rs:48-52 | a finished run stays an identifier exactly when it is neither `fn` nor `let`, and then carries the run's text unchanged |
| Lexer.SymbolTable | src/lexer/lexer.rs:38-45 | the eight symbol arms are exactly the inverse of `Display` on the structural tokens |
| Lexer.KeywordTable | src/lexer/lexer.rs:48-52 | exactly `fn` gives `Function`, exactly `let` gives `Let`, every other run gives `Ident` with that text, and rendering the result gives the run back |
| Lexer.Dispatch | src/lexer/lexer.rs:37-60 | every branch moves the cursor forward, and only `Eof` can leave it past the buffer |
| Lexer.Scan | src/lexer/lexer.rs:34-61 | one call moves the cursor forward, and only `Eof` can leave it past the end |
| Lexer.TokensFrom | src/lexer/lexer.rs:144-148 | the tokens pulled up to the first `Eof` end in `Eof`, at most one per remaining byte, so repeated calls reach `Eof` |
| Lexer.Tokenize | src/lexer/lexer.rs:102 | a fresh lexer's stream ends in `Eof` after at most one token per byte |
| Lexer.Pull | src/lexer/lexer.rs:144-145 | `n` calls return `n` tokens, the first being the first call's |
| Lexer.Lexer.constructor | src/lexer/lexer.rs:11-21 | the buffer holds the string's bytes, `position` is 0, `read_position` is 1, and `ch` is the first byte or 0 for an empty string |
| Lexer.Lexer.ReadChar | src/lexer/lexer.rs:23-32 | the cursor moves to the old `read_position`, `read_position` is one ahead, and `ch` is the byte there or 0 past the end |
| Lexer.Lexer.SkipWhitespace | src/lexer/lexer.rs:80-84 | the cursor ends at the end of the whitespace run, only whitespace bytes were passed, and `ch` is not whitespace |
| Lexer.Lexer.ReadIdent | src/lexer/lexer.rs:63-70 | returns exactly the text of the maximal letter/underscore run from the cursor, non-empty when entered on such a byte, and leaves `ch` on a byte outside the run |
| Lexer.Lexer.ReadNumber | src/lexer/lexer.rs:72-78 | returns exactly the text of the maximal digit run from the cursor, non-empty when entered on a digit, and leaves `ch` on a non-digit |
| Lexer.Lexer.NextToken | src/lexer/lexer.rs:34-61 | the token returned and the new cursor are those of `Scan` from the old cursor, with the field invariant kept |
| LexerProps.ScanSymbol | src/lexer/lexer.rs:38-45 | after whitespace, each of `= + ; , ( ) { }` yields its structural token and moves exactly one byte past it |
| LexerProps.ScanWord | src/lexer/lexer.rs:46-53 | maximal munch and keyword precedence: a letter or `_` starts a run consumed to its end; `fn` and `let` are keywords, any other run an identifier with its exact text |
| LexerProps.ScanNumber | src/lexer/lexer.rs:54 | a digit starts a maximal digit run returned as `Int` with its exact text, and the cursor stops at the run's end |
| LexerProps.ScanIllegal | src/lexer/lexer.rs:56-59 | any other non-zero byte yields `Illegal` and moves exactly one byte, still inside the buffer |
| LexerProps.ScanNul | src/lexer/lexer.rs:55-59 | an embedded NUL yields `Eof` but leaves the cursor inside the buffer, so scanning can go on after it |
| LexerProps.ScanPastEnd | src/lexer/lexer.rs:24-25 | at or past the end a call yields `Eof` |
| LexerProps.DispatchEof | src/lexer/lexer.rs:55 | a call yields `Eof` exactly when the byte left after whitespace is 0 |
| LexerProps.PullPastEnd | src/lexer/lexer.rs:24-25 | once the cursor is at or past the end, every further call yields `Eof` |
| LexerProps.EofAtEnd | src/lexer/lexer.rs:24-25 | in a buffer without NUL bytes, a call returns `Eof` only when it leaves the cursor past the last byte |
| LexerProps.PullAfterEof | src/lexer/lexer.rs:55-59 | in a buffer without NUL bytes, every call after one that returned `Eof` returns `Eof` too, as a caller sees it |
| LexerProps.HighBytesIllegal | src/lexer/lexer.rs:56-59 | a run of bytes at or above 0x80 lexes to one `Illegal` per byte, then `Eof` |
| LexerProps.PullSnoc | src/lexer/lexer.rs:144-145 | one more call appends the token scanned at the cursor the earlier calls left |
| LexerProps.SingleEof | src/lexer/lexer.rs:55 | the stream holds exactly one `Eof`, its last token |
| LexerProps.PullUntilEof | src/lexer/lexer.rs:144-148 | calling until the first `Eof` returns exactly the stream |
| LexerProps.SymbolRoundTrip | src/lexer/token.rs:37-44 | lexing the rendering of a structural token gives that token, then `Eof` |
| LexerProps.IdentRoundTrip | src/lexer/token.rs:35 | lexing a letter/underscore identifier other than `fn`/`let` gives that identifier, then `Eof` |
| LexerProps.KeywordRoundTrip | src/lexer/token.rs:45-46 | lexing `fn` or `let` gives the keyword, then `Eof` |
| LexerProps.NumberRoundTrip | src/lexer/token.rs:36 | lexing a digit string gives `Int` with that string, then `Eof` |
| LexerProps.RoundTrip | src/lexer/token.rs:32-47 | for every lexable token the rendering lexes to the token and `Eof`, and `Eof`'s empty rendering lexes to `Eof` |
| LexerProps.ScanLexable | src/lexer/lexer.rs:37-57 | every token a call returns is lexable, `Eof` or `Illegal` |
| LexerProps.RenderInjective | src/lexer/token.rs:32-47 | no two distinct lexable tokens share a rendering |
| LexerProps.RenderInjectiveFixed | src/lexer/token.rs:37-46 | the ten structural and keyword tokens have ten different renderings |
| LexerProps.DispatchShift | src/lexer/lexer.rs:37-57 | bytes in front of the buffer shift the cursor and change no token |
| LexerProps.ScanShift | src/lexer/lexer.rs:34-61 | bytes in front of the buffer shift a whole call, whitespace included |
| LexerProps.TokensFromShift | src/lexer/lexer.rs:34-61 | bytes in front of the buffer do not change the stream from the shifted cursor |
| LexerProps.DispatchAppend | src/lexer/lexer.rs:46-54 | a token that starts inside `a` and is not cut at the seam scans the same from `a + b` |
| LexerProps.ScanAppend | src/lexer/lexer.rs:34-61 | a call that lands inside `a`, at a seam that cuts no run, scans the same from `a + b` |
| LexerProps.DispatchBeforeNul | src/lexer/lexer.rs:46-57 | a token that starts at or before a NUL inside `a` scans the same from `a + b`, and no run crosses the NUL |
| LexerProps.ScanBeforeNul | src/lexer/lexer.rs:34-61 | a call from at or before a NUL inside `a` scans the same from `a + b` and, unless it yields `Eof`, stops at the NUL at the latest |
| LexerProps.TokensFromBeforeNul | src/lexer/lexer.rs:55 | the stream from at or before a NUL inside `a` ends by that NUL, so bytes after `a` do not change it |
| LexerProps.TokensFromAppend | src/lexer/lexer.rs:34-61 | across a seam that cuts no run, when `a` has no NUL, the stream of `a + b` is the stream of `a` without its `Eof`, then the stream of `b` |
| LexerProps.TokenizeAppend | src/lexer/lexer.rs:34-61 | a fresh lexer over `a + b` yields the tokens of `a` without `Eof`, then those of `b`, when `a` has no NUL and the seam cuts no run |
| LexerProps.TokenizeWhitespace | src/lexer/lexer.rs:80-84 | a buffer of whitespace alone yields only `Eof` |
| LexerProps.LeadingWhitespace | src/lexer/lexer.rs:80-84 | whitespace in front of a buffer does not change its stream |
| LexerProps.WhitespaceAtSeam | src/lexer/lexer.rs:80-84 | inserting whitespace at a seam after NUL-free text does not change the stream |
| LexerProps.WhitespaceTransparent | src/lexer/lexer.rs:80-84 | inserting whitespace at any seam that cuts no run does not change the stream, whether or not the text before it holds a NUL |
| Spelling.TokenizeSpaces | src/lexer/lexer.rs:80-84 | a string of whitespace lexes to `Eof` alone |
| Spelling.TokenThenRest | src/lexer/token.rs:32-47 | a lexable token's rendering, followed by text it cannot merge with, lexes to that token and then the text's tokens |
| Spelling.ConsToken | src/lexer/token.rs:32-47 | the same with a whitespace gap in front of the token |
| Spelling.StreamRoundTrip | src/lexer/token.rs:32-47 | lexing the renderings of lexable tokens, with whitespace wherever two would merge, gives exactly those tokens, then `Eof` |
| Spelling.SpellText | src/lexer/token.rs:32-47 | such a spelling is ASCII without NUL, and ends with the last gap when that gap is not empty |
| LexerTest.LineTokens | src/lexer/lexer.rs:95-101 | a line of the test program written as tokens and gaps lexes to those tokens, then `Eof` |
| LexerTest.JoinLines | src/lexer/lexer.rs:95-101 | NUL-free ASCII text ending in whitespace lexes independently of what follows it |
| LexerTest.Line1Tokens | src/lexer/lexer.rs:95 | `let five = 5;` lexes to its five tokens |
| LexerTest.Line2Tokens | src/lexer/lexer.rs:96 | `let ten = 10;` lexes to its five tokens |
| LexerTest.Line3aTokens | src/lexer/lexer.rs:97 | `let add = ` lexes to its three tokens |
| LexerTest.Line3bTokens | src/lexer/lexer.rs:97 | `fn(x, ` lexes to its four tokens |
| LexerTest.Line3cTokens | src/lexer/lexer.rs:97 | `y) {` lexes to its three tokens |
| LexerTest.Line4Tokens | src/lexer/lexer.rs:98 | `x + y;` lexes to its four tokens |
| LexerTest.Line5Tokens | src/lexer/lexer.rs:99 | `};` lexes to its two tokens |
| LexerTest.Line6aTokens | src/lexer/lexer.rs:100 | `let result = ` lexes to its three tokens |
| LexerTest.Line6bTokens | src/lexer/lexer.rs:100 | `add(five, ` lexes to its four tokens |
| LexerTest.Line6cTokens | src/lexer/lexer.rs:100 | `ten);` lexes to its three tokens |
| LexerTest.LastLines | src/lexer/lexer.rs:100-101 | the last line and the closing indentation lex to the last line's tokens, then `Eof` |
| LexerTest.MiddleLines | src/lexer/lexer.rs:97-101 | the program from the function literal on lexes to its tokens, then `Eof` |
| LexerTest.GetNextTokenScenario | src/lexer/lexer.rs:93-142 | the test program's stream is exactly the listed 36 tokens, then `Eof` |
| LexerTest.PullTokens | src/lexer/lexer.rs:102-145 | a fresh `Lexer` and `n` `NextToken` calls return exactly `Pull` of the buffer |
| LexerTest.GetNextToken | src/lexer/lexer.rs:93-151 | one `NextToken` call per listed token, on a fresh lexer over the program, returns exactly the listed tokens |
| Examples.DigitEndsIdent | src/lexer/lexer.rs:46-54 | `x1` lexes as `Ident("x")`, `Int("1")`, `Eof`, because identifier runs hold no digits |
| Examples.KeywordsExact | src/lexer/lexer.rs:48-51 | `Fn` and `lets` lex as identifiers, because keywords are case-sensitive and match whole runs |
| Examples.VerticalTabIllegal | src/lexer/lexer.rs:56 | vertical tab is not whitespace and lexes as `Illegal` |
| Examples.NulResumes | src/lexer/lexer.rs:55-59 | the stream of `[0, 0x78]` is just `Eof`, but three calls return `Eof`, `Ident("x")`, `Eof`: the call after an embedded NUL scans on |
| Examples.NulAtEnd | src/lexer/lexer.rs:55-59 | a NUL with only the end of the buffer behind it: `[0x78, 0]` gives `Ident("x")`, then `Eof` on each of the next two calls |
| Examples.NonAsciiIllegal | src/lexer/lexer.rs:56-59 | `é` lexes to two `Illegal` tokens, one per byte of its UTF-8 encoding, then `Eof` |

## Left out

- `src/main.rs` is not part of this model. It is a REPL doing terminal I/O
  and calling a foreign library for the user name. It also does not fit the
  lexer shown: it passes a mutable reference where `new` takes a `String`,
  and iterates a `Lexer` that implements no iterator.
- `String::from_utf8_lossy` is modelled only on the ASCII slices the lexer
  passes it, where it maps each byte to the character with the same code.
  UTF-8 decoding of other bytes is not modelled.
- The `println!` and `Debug` output in the test is left out. It is
  diagnostic only. The test's `assert_eq!` is the `ensures` of
  `GetNextToken`.
- `usize` overflow of `position` and `read_position` is not modelled. The
  positions are unbounded naturals. Each call past the end still moves them
  by one, so they would overflow after about `usize::MAX` calls made past
  the end; `PullPastEnd` promises `Eof` for any number of such calls.
- Lexer.Lexer.ReadIdent and Lexer.Lexer.ReadNumber: these require the
  cursor to be inside the buffer or exactly at its end, where the Rust
  slice would otherwise panic. `next_token` calls them only on a letter,
  underscore or digit, which is inside the buffer.
- LexerProps.WhitespaceTransparent: it holds only at a seam that cuts no
  identifier or digit run. It does not claim that whitespace may be
  inserted anywhere, because inserting it inside a run splits the run.
- LexerTest.GetNextTokenScenario: the test input is written as the
  concatenation of its ten line pieces and the closing indentation, and the
  expected list as the concatenation of the pieces' tokens. Both are the
  same strings and sequences as the test's literals.
