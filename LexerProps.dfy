/** What one `next_token` call and the whole token stream promise, stated
    independently of how `Scan` is written: maximal munch, keyword precedence,
    the single-byte branches, the stable end of input, the round trip through
    `Display`, and how tokenizing a concatenation splits at a token boundary. */
module LexerProps {
  import opened Bytes
  import opened Token
  import opened Lexer

  /** Whitespace skipping from `pos` stops at `q`: everything in between is
      ASCII whitespace inside the buffer, and the byte at `q` is not. */
  predicate SkipsTo(input: seq<byte>, pos: nat, q: nat) {
    pos <= q && (pos < q ==> q <= |input|) &&
    (forall k :: pos <= k < q ==> IsAsciiWhitespace(input[k])) &&
    !IsAsciiWhitespace(At(input, q))
  }

  /** `[q, e)` is a non-empty maximal run of bytes of class `p`. */
  predicate IsMaximalRun(input: seq<byte>, q: nat, e: nat, p: RunClass) {
    q < e <= |input| &&
    (forall k :: q <= k < e ==> InClass(p, input[k])) &&
    !InClass(p, At(input, e))
  }

  lemma AppendAssoc<T>(a: seq<T>, b: seq<T>, c: seq<T>)
    ensures a + b + c == a + (b + c)
  {
  }

  lemma SameCons<T>(x: T, a: seq<T>, b: seq<T>, ra: seq<T>, rb: seq<T>)
    requires a == [x] + ra && b == [x] + rb && ra == rb
    ensures a == b
  {
  }

  lemma ConsSnoc<T>(x: T, front: seq<T>, last: T, whole: seq<T>, tail: seq<T>, init: seq<T>)
    requires whole == [x] + tail && tail == front + [last] && init == [x] + front
    ensures whole == init + [last]
  {
    AppendAssoc([x], front, [last]);
  }

  lemma ConsAvoids<T>(x: T, rest: seq<T>, whole: seq<T>, y: T)
    requires whole == [x] + rest && x != y
    requires forall k :: 0 <= k < |rest| - 1 ==> rest[k] != y
    ensures forall k :: 0 <= k < |whole| - 1 ==> whole[k] != y
  {
    forall k | 0 <= k < |whole| - 1 ensures whole[k] != y {
      if k > 0 {
        assert whole[k] == rest[k - 1];
      }
    }
  }

  lemma DropCons<T>(s: seq<T>, i: nat)
    requires i < |s|
    ensures s[i..] == [s[i]] + s[i + 1..]
  {
  }

  // ---------------------------------------------------------------------
  // One call

  /** Each of `= + , ; ( ) { }` yields its structural token and moves the
      cursor exactly one byte past it. */
  lemma ScanSymbol(input: seq<byte>, pos: nat, q: nat, t: Token)
    requires SkipsTo(input, pos, q)
    requires IsSymbol(t) && Render(t) == [At(input, q) as int as char]
    ensures Scan(input, pos) == (t, q + 1)
  {
    RunEndUnique(input, pos, q, Spaces);
  }

  /** Maximal munch and keyword precedence: a letter or underscore starts a
      run that is consumed to its very end; exactly `fn` and `let` become
      keywords, every other run an identifier with the run's exact text. */
  lemma ScanWord(input: seq<byte>, pos: nat, q: nat, e: nat)
    requires SkipsTo(input, pos, q)
    requires IsMaximalRun(input, q, e, Word)
    ensures forall k :: q <= k < e ==> input[k] < 0x80
    ensures var text := AsciiText(input[q..e]);
      Scan(input, pos) ==
        (if text == "fn" then Function else if text == "let" then Let else Ident(text), e)
  {
    RunEndUnique(input, pos, q, Spaces);
    RunEndUnique(input, q, e, Word);
  }

  /** A digit starts a run of digits that is consumed to its very end and
      returned as its text. */
  lemma ScanNumber(input: seq<byte>, pos: nat, q: nat, e: nat)
    requires SkipsTo(input, pos, q)
    requires IsMaximalRun(input, q, e, Digits)
    ensures forall k :: q <= k < e ==> input[k] < 0x80
    ensures Scan(input, pos) == (Int(AsciiText(input[q..e])), e)
  {
    RunEndUnique(input, pos, q, Spaces);
    RunEndUnique(input, q, e, Digits);
  }

  /** A non-zero byte that starts no token yields `Illegal` and is skipped:
      the cursor moves exactly one byte, still inside the buffer. */
  lemma ScanIllegal(input: seq<byte>, pos: nat, q: nat)
    requires SkipsTo(input, pos, q)
    requires At(input, q) != 0 && !IsWordByte(At(input, q)) && !IsAsciiDigit(At(input, q))
    requires forall u :: IsSymbol(u) ==> Render(u) != [At(input, q) as int as char]
    ensures Scan(input, pos) == (Illegal, q + 1) && q + 1 <= |input|
  {
    RunEndUnique(input, pos, q, Spaces);
    SymbolTable(At(input, q));
  }

  /** A NUL byte inside the buffer reads like the sentinel and yields `Eof`,
      but the cursor stays inside the buffer, so further calls go on
      scanning what follows it. */
  lemma ScanNul(input: seq<byte>, pos: nat, q: nat)
    requires SkipsTo(input, pos, q) && q < |input| && input[q] == 0
    ensures Scan(input, pos) == (Eof, q + 1) && q + 1 <= |input|
  {
    RunEndUnique(input, pos, q, Spaces);
  }

  /** Past the end of the buffer a call yields `Eof` and moves one step on. */
  lemma ScanPastEnd(input: seq<byte>, pos: nat)
    requires |input| <= pos
    ensures Scan(input, pos) == (Eof, pos + 1)
  {
    RunEndUnique(input, pos, pos, Spaces);
  }

  /** `next_token` yields `Eof` exactly when the byte left after whitespace
      skipping is 0, the sentinel or an embedded NUL. */
  lemma DispatchEof(input: seq<byte>, p: nat)
    ensures Dispatch(input, p).0 == Eof <==> At(input, p) == 0
  {
  }

  // ---------------------------------------------------------------------
  // Repeated calls

  /** Once the cursor is at or past the end, every further call yields `Eof`. */
  lemma {:induction false} PullPastEnd(input: seq<byte>, pos: nat, n: nat)
    requires |input| <= pos
    ensures forall k :: 0 <= k < n ==> Pull(input, pos, n)[k] == Eof
    decreases n
  {
    if n > 0 {
      ScanPastEnd(input, pos);
      PullPastEnd(input, pos + 1, n - 1);
      assert Pull(input, pos, n) == [Eof] + Pull(input, pos + 1, n - 1);
    }
  }

  /** One more call appends the token it returns at the cursor the earlier
      calls left. */
  lemma {:induction false} PullSnoc(input: seq<byte>, pos: nat, n: nat)
    ensures Pull(input, pos, n + 1) == Pull(input, pos, n) + [Scan(input, Cursor(input, pos, n)).0]
    ensures Cursor(input, pos, n + 1) == Scan(input, Cursor(input, pos, n)).1
    decreases n
  {
    if n > 0 {
      var (t, next) := Scan(input, pos);
      var m := n - 1;
      PullSnoc(input, next, m);
      var last := Scan(input, Cursor(input, next, m)).0;
      ConsSnoc(t, Pull(input, next, m), last, Pull(input, pos, n + 1), Pull(input, next, n), Pull(input, pos, n));
    }
  }

  /** The stream holds exactly one `Eof`, its last token. */
  lemma {:induction false} SingleEof(input: seq<byte>, pos: nat)
    ensures forall k :: 0 <= k < |TokensFrom(input, pos)| - 1 ==> TokensFrom(input, pos)[k] != Eof
    decreases |input| - pos
  {
    var (t, next) := Scan(input, pos);
    if t != Eof {
      SingleEof(input, next);
      TokensFromStep(input, pos, t, next);
      ConsAvoids(t, TokensFrom(input, next), TokensFrom(input, pos), Eof);
    }
  }

  lemma PullCons(input: seq<byte>, pos: nat, t: Token, next: nat, m: nat)
    requires Scan(input, pos) == (t, next)
    ensures Pull(input, pos, m + 1) == [t] + Pull(input, next, m)
  {
  }

  /** In a buffer without NUL bytes, a call yields `Eof` only when it ran off
      the end: the cursor it leaves is past the last byte. */
  lemma EofAtEnd(input: seq<byte>, pos: nat)
    requires NoNul(input) && Scan(input, pos).0 == Eof
    ensures |input| < Scan(input, pos).1
  {
    var p := RunEnd(input, pos, Spaces);
    DispatchEof(input, p);
  }

  /** Once `Eof`, always `Eof`, as a caller sees it: in a buffer without NUL
      bytes, every call after one that returned `Eof` returns `Eof` too. */
  lemma {:induction false} PullAfterEof(input: seq<byte>, pos: nat, n: nat, k: nat)
    requires NoNul(input) && k < n && Pull(input, pos, n)[k] == Eof
    ensures forall j :: k <= j < n ==> Pull(input, pos, n)[j] == Eof
    decreases k
  {
    var (t, next) := Scan(input, pos);
    var m := n - 1;
    PullCons(input, pos, t, next, m);
    if k == 0 {
      EofAtEnd(input, pos);
      PullPastEnd(input, next, m);
    } else {
      PullAfterEof(input, next, m, k - 1);
    }
  }

  /** Bytes at or above 0x80, which is every byte of a non-ASCII character's
      UTF-8 encoding, start no token: each one is a separate `Illegal`. */
  lemma {:induction false} HighBytesIllegal(bs: seq<byte>, i: nat)
    requires i <= |bs| && forall k :: 0 <= k < |bs| ==> bs[k] >= 0x80
    ensures TokensFrom(bs, i) == seq(|bs| - i, _ => Illegal) + [Eof]
    decreases |bs| - i
  {
    if i == |bs| {
      ScanPastEnd(bs, i);
    } else {
      SymbolTable(bs[i]);
      ScanIllegal(bs, i, i);
      HighBytesIllegal(bs, i + 1);
      TokensFromStep(bs, i, Illegal, i + 1);
      assert seq(|bs| - i, _ => Illegal) == [Illegal] + seq(|bs| - (i + 1), _ => Illegal);
    }
  }

  /** Calling `next_token` until it first yields `Eof` produces `TokensFrom`. */
  lemma {:induction false} PullUntilEof(input: seq<byte>, pos: nat)
    ensures Pull(input, pos, |TokensFrom(input, pos)|) == TokensFrom(input, pos)
    decreases |input| - pos
  {
    var (t, next) := Scan(input, pos);
    if t != Eof {
      PullUntilEof(input, next);
      var rest := TokensFrom(input, next);
      var m := |rest|;
      TokensFromStep(input, pos, t, next);
      PullCons(input, pos, t, next, m);
      SameCons(t, Pull(input, pos, m + 1), TokensFrom(input, pos), Pull(input, next, m), rest);
    }
  }

  // ---------------------------------------------------------------------
  // Round trip through Display

  predicate IsWordChar(c: char) {
    c as int < 0x80 && IsWordByte(c as int as byte)
  }

  predicate IsDigitChar(c: char) {
    c as int < 0x80 && IsAsciiDigit(c as int as byte)
  }

  /** The tokens the lexer can produce from their own rendering: structural
      and keyword tokens, identifiers spelled with letters and underscores
      other than the two keywords, and integers spelled with digits. */
  predicate Lexable(t: Token) {
    IsSymbol(t) || IsKeyword(t) ||
    (t.Ident? && |t.id| > 0 && (forall k :: 0 <= k < |t.id| ==> IsWordChar(t.id[k])) &&
     t.id != "fn" && t.id != "let") ||
    (t.Int? && |t.digits| > 0 && (forall k :: 0 <= k < |t.digits| ==> IsDigitChar(t.digits[k])))
  }

  /** The rendering of a structural token lexes back to it. */
  lemma SymbolRoundTrip(t: Token)
    requires IsSymbol(t)
    ensures Tokenize(IntoBytes(Render(t))) == [t, Eof]
  {
    var s := Render(t);
    AsciiIntoBytes(s);
    var bs := IntoBytes(s);
    assert s == [At(bs, 0) as int as char];
    ScanSymbol(bs, 0, 0, t);
    ScanPastEnd(bs, 1);
  }

  /** The bytes of a run of word characters that spell `text`. */
  lemma WordBytes(text: string)
    requires |text| > 0 && forall k :: 0 <= k < |text| ==> IsWordChar(text[k])
    ensures IsAscii(text)
    ensures |IntoBytes(text)| == |text|
    ensures forall k :: 0 <= k < |text| ==> IntoBytes(text)[k] as int == text[k] as int
    ensures AsciiText(IntoBytes(text)) == text
    ensures forall k :: 0 <= k < |IntoBytes(text)| ==> IsWordByte(IntoBytes(text)[k])
  {
    AsciiIntoBytes(text);
  }

  /** The rendering of a lexable identifier lexes back to it. */
  lemma IdentRoundTrip(t: Token)
    requires t.Ident? && Lexable(t)
    ensures Tokenize(IntoBytes(Render(t))) == [t, Eof]
  {
    var s := t.id;
    WordBytes(s);
    var bs := IntoBytes(s);
    var n := |bs|;
    ScanWord(bs, 0, 0, n);
    assert bs[0..n] == bs;
    ScanPastEnd(bs, n);
  }

  /** The spelling of a keyword lexes back to it. */
  lemma KeywordRoundTrip(t: Token)
    requires IsKeyword(t)
    ensures Tokenize(IntoBytes(Render(t))) == [t, Eof]
  {
    var s := Render(t);
    WordBytes(s);
    var bs := IntoBytes(s);
    var n := |bs|;
    ScanWord(bs, 0, 0, n);
    assert bs[0..n] == bs;
    ScanPastEnd(bs, n);
  }

  /** The rendering of a lexable integer lexes back to it. */
  lemma NumberRoundTrip(t: Token)
    requires t.Int? && Lexable(t)
    ensures Tokenize(IntoBytes(Render(t))) == [t, Eof]
  {
    var s := Render(t);
    assert IsAscii(s);
    AsciiIntoBytes(s);
    var bs := IntoBytes(s);
    var n := |bs|;
    ScanNumber(bs, 0, 0, n);
    assert bs[0..n] == bs;
    ScanPastEnd(bs, n);
  }

  /** Lexing the rendering of a lexable token yields that token and then
      `Eof`; lexing the rendering of `Eof`, the empty string, yields `Eof`. */
  lemma RoundTrip(t: Token)
    requires Lexable(t) || t == Eof
    ensures Tokenize(IntoBytes(Render(t))) == if t == Eof then [Eof] else [t, Eof]
  {
    if IsSymbol(t) {
      SymbolRoundTrip(t);
    } else if t.Int? {
      NumberRoundTrip(t);
    } else if t.Ident? {
      IdentRoundTrip(t);
    } else if t != Eof {
      KeywordRoundTrip(t);
    }
  }

  /** Every token `next_token` returns is lexable, `Eof` or `Illegal`. */
  lemma ScanLexable(input: seq<byte>, pos: nat)
    ensures var t := Scan(input, pos).0; Lexable(t) || t == Eof || t == Illegal
  {
    var p := RunEnd(input, pos, Spaces);
    var c := At(input, p);
    if SymbolToken(c).None? {
      if IsWordByte(c) {
        var e := RunEnd(input, p, Word);
        var text := AsciiText(input[p..e]);
        assert forall k :: 0 <= k < |text| ==> text[k] as int == input[p + k] as int;
      } else if IsAsciiDigit(c) {
        var e := RunEnd(input, p, Digits);
        var text := AsciiText(input[p..e]);
        assert forall k :: 0 <= k < |text| ==> text[k] as int == input[p + k] as int;
      }
    }
  }

  /** No two distinct lexable tokens share a rendering. */
  lemma RenderInjective(a: Token, b: Token)
    requires Lexable(a) && Lexable(b) && Render(a) == Render(b)
    ensures a == b
  {
    RoundTrip(a);
    RoundTrip(b);
  }

  /** In particular the structural and keyword tokens have ten different
      renderings. */
  lemma RenderInjectiveFixed(a: Token, b: Token)
    requires IsSymbol(a) || IsKeyword(a)
    requires IsSymbol(b) || IsKeyword(b)
    requires Render(a) == Render(b)
    ensures a == b
  {
    RenderInjective(a, b);
  }

  // ---------------------------------------------------------------------
  // Concatenation and whitespace

  predicate NoNul(a: seq<byte>) {
    forall k :: 0 <= k < |a| ==> a[k] != 0
  }

  /** `a` and `b` meet at a token boundary: no identifier run and no digit
      run can continue from the end of `a` into `b`. */
  predicate Seam(a: seq<byte>, b: seq<byte>) {
    |a| == 0 ||
    (!(IsWordByte(a[|a| - 1]) && IsWordByte(At(b, 0))) &&
     !(IsAsciiDigit(a[|a| - 1]) && IsAsciiDigit(At(b, 0))))
  }

  lemma SliceShift(w: seq<byte>, s: seq<byte>, i: nat, j: nat)
    requires i <= j <= |s|
    ensures (w + s)[|w| + i..|w| + j] == s[i..j]
  {
  }

  lemma WordShift(w: seq<byte>, s: seq<byte>, p: nat)
    requires IsWordByte(At(s, p))
    ensures Dispatch(w + s, |w| + p) == (Dispatch(s, p).0, |w| + Dispatch(s, p).1)
  {
    assert At(w + s, |w| + p) == At(s, p);
    RunEndShift(w, s, p, Word);
    var e := RunEnd(s, p, Word);
    SliceShift(w, s, p, e);
    assert Dispatch(s, p) == (Keyword(AsciiText(s[p..e])), e);
  }

  lemma NumberShift(w: seq<byte>, s: seq<byte>, p: nat)
    requires IsAsciiDigit(At(s, p))
    ensures Dispatch(w + s, |w| + p) == (Dispatch(s, p).0, |w| + Dispatch(s, p).1)
  {
    assert At(w + s, |w| + p) == At(s, p);
    RunEndShift(w, s, p, Digits);
    var e := RunEnd(s, p, Digits);
    SliceShift(w, s, p, e);
    assert Dispatch(s, p) == (Int(AsciiText(s[p..e])), e);
  }

  /** Bytes in front of the buffer shift the cursor and change nothing else. */
  lemma DispatchShift(w: seq<byte>, s: seq<byte>, p: nat)
    ensures Dispatch(w + s, |w| + p) == (Dispatch(s, p).0, |w| + Dispatch(s, p).1)
  {
    var c := At(s, p);
    if IsWordByte(c) {
      WordShift(w, s, p);
    } else if IsAsciiDigit(c) {
      NumberShift(w, s, p);
    } else {
      assert At(w + s, |w| + p) == c;
    }
  }

  lemma ScanShift(w: seq<byte>, s: seq<byte>, i: nat)
    ensures Scan(w + s, |w| + i) == (Scan(s, i).0, |w| + Scan(s, i).1)
  {
    RunEndShift(w, s, i, Spaces);
    DispatchShift(w, s, RunEnd(s, i, Spaces));
  }

  /** A call that does not yield `Eof` is followed, on the shifted buffer,
      by the stream from the shifted cursor it leaves behind. */
  lemma ShiftedStep(w: seq<byte>, s: seq<byte>, i: nat, t: Token, n: nat)
    requires Scan(s, i) == (t, n) && t != Eof
    ensures TokensFrom(w + s, |w| + i) == [t] + TokensFrom(w + s, |w| + n)
  {
    ScanShift(w, s, i);
  }

  lemma ShiftStep(w: seq<byte>, s: seq<byte>, i: nat, t: Token, n: nat)
    requires Scan(s, i) == (t, n) && t != Eof
    requires TokensFrom(w + s, |w| + n) == TokensFrom(s, n)
    ensures TokensFrom(w + s, |w| + i) == TokensFrom(s, i)
  {
    ShiftedStep(w, s, i, t, n);
    TokensFromStep(s, i, t, n);
    SameCons(t, TokensFrom(w + s, |w| + i), TokensFrom(s, i), TokensFrom(w + s, |w| + n), TokensFrom(s, n));
  }

  lemma ShiftEof(w: seq<byte>, s: seq<byte>, i: nat)
    requires Scan(s, i).0 == Eof
    ensures TokensFrom(w + s, |w| + i) == TokensFrom(s, i)
  {
    ScanShift(w, s, i);
  }

  lemma {:induction false} TokensFromShift(w: seq<byte>, s: seq<byte>, i: nat)
    ensures TokensFrom(w + s, |w| + i) == TokensFrom(s, i)
    decreases |s| - i
  {
    var (t, n) := Scan(s, i);
    if t != Eof {
      TokensFromShift(w, s, n);
      ShiftStep(w, s, i, t, n);
    } else {
      ShiftEof(w, s, i);
    }
  }

  /** A token that starts inside `a` and is not cut by the seam is scanned
      from `a + b` exactly as from `a`. */
  lemma DispatchAppend(a: seq<byte>, b: seq<byte>, p: nat)
    requires p < |a| && Seam(a, b)
    ensures Dispatch(a + b, p) == Dispatch(a, p)
  {
    var c := At(a, p);
    assert At(a + b, p) == c;
    if SymbolToken(c).None? {
      if IsWordByte(c) {
        var e := RunEnd(a, p, Word);
        if e == |a| {
          assert IsWordByte(a[|a| - 1]);
        }
        RunEndAppend(a, b, p, Word);
        assert (a + b)[p..e] == a[p..e];
      } else if IsAsciiDigit(c) {
        var e := RunEnd(a, p, Digits);
        if e == |a| {
          assert IsAsciiDigit(a[|a| - 1]);
        }
        RunEndAppend(a, b, p, Digits);
        assert (a + b)[p..e] == a[p..e];
      }
    }
  }

  /** A token that starts inside `a` and is not cut by the seam is scanned
      from `a + b` exactly as from `a`. */
  lemma ScanAppend(a: seq<byte>, b: seq<byte>, i: nat)
    requires i <= |a| && Seam(a, b)
    requires RunEnd(a, i, Spaces) < |a|
    ensures Scan(a + b, i) == Scan(a, i)
  {
    RunEndAppend(a, b, i, Spaces);
    DispatchAppend(a, b, RunEnd(a, i, Spaces));
  }

  /** A token that starts at or before a NUL inside `a` scans the same from
      `a + b`, and one other than `Eof` ends at that NUL at the latest: no run
      crosses it. */
  lemma DispatchBeforeNul(a: seq<byte>, b: seq<byte>, p: nat, z: nat)
    requires p <= z < |a| && a[z] == 0
    ensures Dispatch(a + b, p) == Dispatch(a, p)
    ensures Dispatch(a, p).0 != Eof ==> Dispatch(a, p).1 <= z
  {
    var c := At(a, p);
    assert At(a + b, p) == c;
    if SymbolToken(c).None? {
      if IsWordByte(c) {
        RunEndBefore(a, p, z, Word);
        RunEndAppend(a, b, p, Word);
        var e := RunEnd(a, p, Word);
        assert (a + b)[p..e] == a[p..e];
      } else if IsAsciiDigit(c) {
        RunEndBefore(a, p, z, Digits);
        RunEndAppend(a, b, p, Digits);
        var e := RunEnd(a, p, Digits);
        assert (a + b)[p..e] == a[p..e];
      }
    }
  }

  /** A call from a cursor at or before a NUL inside `a` scans the same from
      `a + b`, and leaves the cursor at that NUL at the latest unless it
      yields `Eof`. */
  lemma ScanBeforeNul(a: seq<byte>, b: seq<byte>, i: nat, z: nat)
    requires i <= z < |a| && a[z] == 0
    ensures Scan(a + b, i) == Scan(a, i)
    ensures Scan(a, i).0 != Eof ==> Scan(a, i).1 <= z
  {
    RunEndBefore(a, i, z, Spaces);
    RunEndAppend(a, b, i, Spaces);
    DispatchBeforeNul(a, b, RunEnd(a, i, Spaces), z);
  }

  /** The stream from a cursor at or before a NUL inside `a` stops at that
      NUL at the latest, so nothing after `a` changes it. */
  lemma {:induction false} TokensFromBeforeNul(a: seq<byte>, b: seq<byte>, i: nat, z: nat)
    requires i <= z < |a| && a[z] == 0
    ensures TokensFrom(a + b, i) == TokensFrom(a, i)
    decreases z - i
  {
    var (t, n) := Scan(a, i);
    ScanBeforeNul(a, b, i, z);
    if t != Eof {
      TokensFromBeforeNul(a, b, n, z);
      var ab := a + b;
      TokensFromStep(a, i, t, n);
      TokensFromStep(ab, i, t, n);
      SameCons(t, TokensFrom(ab, i), TokensFrom(a, i), TokensFrom(ab, n), TokensFrom(a, n));
    }
  }

  /** A call that does not yield `Eof` is followed by the stream from where
      it left the cursor. */
  lemma TokensFromStep(input: seq<byte>, i: nat, t: Token, n: nat)
    requires Scan(input, i) == (t, n) && t != Eof
    ensures TokensFrom(input, i) == [t] + TokensFrom(input, n)
  {
  }

  lemma ConsDropLast<T>(x: T, rest: seq<T>, tail: seq<T>, whole: seq<T>, wholeAB: seq<T>, restAB: seq<T>)
    requires |rest| > 0 && whole == [x] + rest && wholeAB == [x] + restAB
    requires restAB == rest[..|rest| - 1] + tail
    ensures wholeAB == whole[..|whole| - 1] + tail
  {
    assert whole[..|whole| - 1] == [x] + rest[..|rest| - 1];
  }

  /** Two cursors whose whitespace skipping stops at the same byte yield the
      same stream. */
  lemma TokensFromSameSkip(input: seq<byte>, i: nat, j: nat)
    requires RunEnd(input, i, Spaces) == RunEnd(input, j, Spaces)
    ensures TokensFrom(input, i) == TokensFrom(input, j)
  {
    assert Scan(input, i) == Scan(input, j);
  }

  /** When only whitespace is left in `a`, the stream from `a + b` is the
      stream of `b`. */
  lemma TokensFromAppendEnd(a: seq<byte>, b: seq<byte>, i: nat)
    requires i <= |a| && RunEnd(a, i, Spaces) == |a|
    ensures TokensFrom(a, i) == [Eof]
    ensures TokensFrom(a + b, i) == Tokenize(b)
  {
    DispatchEof(a, |a|);
    var e := RunEnd(a + b, |a|, Spaces);
    RunEndUnique(a + b, i, e, Spaces);
    TokensFromSameSkip(a + b, i, |a| + 0);
    TokensFromShift(a, b, 0);
  }

  lemma {:induction false} TokensFromAppend(a: seq<byte>, b: seq<byte>, i: nat)
    requires i <= |a| && NoNul(a) && Seam(a, b)
    ensures TokensFrom(a + b, i) == TokensFrom(a, i)[..|TokensFrom(a, i)| - 1] + Tokenize(b)
    decreases |a| - i
  {
    var p := RunEnd(a, i, Spaces);
    if p < |a| {
      ScanAppend(a, b, i);
      var (t, n) := Scan(a, i);
      assert At(a, p) != 0;
      DispatchEof(a, p);
      var ab := a + b;
      TokensFromStep(a, i, t, n);
      TokensFromStep(ab, i, t, n);
      TokensFromAppend(a, b, n);
      ConsDropLast(t, TokensFrom(a, n), Tokenize(b), TokensFrom(a, i), TokensFrom(ab, i), TokensFrom(ab, n));
    } else {
      TokensFromAppendEnd(a, b, i);
    }
  }

  /** Tokenizing `a + b` across a seam is tokenizing `a`, dropping its final
      `Eof`, and tokenizing `b`. */
  lemma TokenizeAppend(a: seq<byte>, b: seq<byte>)
    requires NoNul(a) && Seam(a, b)
    ensures Tokenize(a + b) == Tokenize(a)[..|Tokenize(a)| - 1] + Tokenize(b)
  {
    TokensFromAppend(a, b, 0);
  }

  /** A buffer of whitespace alone yields only `Eof`. */
  lemma TokenizeWhitespace(w: seq<byte>)
    requires forall k :: 0 <= k < |w| ==> IsAsciiWhitespace(w[k])
    ensures Tokenize(w) == [Eof]
  {
    RunEndUnique(w, 0, |w|, Spaces);
  }

  /** Whitespace in front of a buffer does not change its token stream. */
  lemma LeadingWhitespace(w: seq<byte>, s: seq<byte>)
    requires forall k :: 0 <= k < |w| ==> IsAsciiWhitespace(w[k])
    ensures Tokenize(w + s) == Tokenize(s)
  {
    TokenizeWhitespace(w);
    TokenizeAppend(w, s);
  }

  /** Whitespace transparency: inserting a run of whitespace at a token
      boundary does not change the token stream. */
  lemma WhitespaceTransparent(a: seq<byte>, w: seq<byte>, b: seq<byte>)
    requires Seam(a, b)
    requires forall k :: 0 <= k < |w| ==> IsAsciiWhitespace(w[k])
    ensures Tokenize(a + w + b) == Tokenize(a + b)
  {
    if NoNul(a) {
      WhitespaceAtSeam(a, w, b);
    } else {
      var z :| 0 <= z < |a| && a[z] == 0;
      AppendAssoc(a, w, b);
      TokensFromBeforeNul(a, w + b, 0, z);
      TokensFromBeforeNul(a, b, 0, z);
    }
  }

  /** Whitespace transparency when the text before the insertion holds no
      NUL, so that the stream reaches the insertion point. */
  lemma WhitespaceAtSeam(a: seq<byte>, w: seq<byte>, b: seq<byte>)
    requires NoNul(a) && Seam(a, b)
    requires forall k :: 0 <= k < |w| ==> IsAsciiWhitespace(w[k])
    ensures Tokenize(a + w + b) == Tokenize(a + b)
  {
    var wb := w + b;
    LeadingWhitespace(w, b);
    if |w| > 0 {
      assert IsAsciiWhitespace(At(wb, 0));
    } else {
      assert wb == b;
    }
    AppendAssoc(a, w, b);
    TokenizeAppend(a, wb);
    TokenizeAppend(a, b);
  }
}
