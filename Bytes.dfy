/** Bytes of the lexer's input buffer, the ASCII classes Rust's `u8` methods
    test, maximal runs of one class, and the conversions between Rust strings
    and byte buffers that the lexer relies on. */
module Bytes {

  /** A Rust `u8`. */
  newtype byte = b: int | 0 <= b < 256

  /** The byte the lexer reads at index `i`: the buffer's byte when `i` is in
      range, and the sentinel 0 once the cursor has passed the end. */
  function At(input: seq<byte>, i: nat): (b: byte)
    ensures i < |input| ==> b == input[i]
    ensures |input| <= i ==> b == 0
  {
    if i < |input| then input[i] else 0
  }

  /** `u8::is_ascii_whitespace`: space, tab, line feed, form feed and carriage
      return. Vertical tab (0x0B) is not included. */
  predicate IsAsciiWhitespace(b: byte) {
    b == 0x20 || b == 0x09 || b == 0x0A || b == 0x0C || b == 0x0D
  }

  /** `u8::is_ascii_alphabetic`: `A`..=`Z` or `a`..=`z`. */
  predicate IsAsciiAlphabetic(b: byte) {
    (0x41 <= b <= 0x5A) || (0x61 <= b <= 0x7A)
  }

  /** `u8::is_ascii_digit`: `0`..=`9`. */
  predicate IsAsciiDigit(b: byte) {
    0x30 <= b <= 0x39
  }

  /** The three `u8` tests on the characters they accept: whitespace is
      space, tab, line feed, form feed and carriage return, and not vertical
      tab; letters are the two ASCII alphabets; digits are `0` to `9`. */
  lemma AsciiClasses(b: byte)
    ensures IsAsciiWhitespace(b) <==> b as int as char in " \t\n\U{000C}\r"
    ensures !IsAsciiWhitespace(0x0B)
    ensures IsAsciiAlphabetic(b) <==>
      ('A' <= b as int as char <= 'Z') || ('a' <= b as int as char <= 'z')
    ensures IsAsciiDigit(b) <==> '0' <= b as int as char <= '9'
  {
  }

  /** A byte an identifier run may contain: ASCII alphabetic or `_`. */
  predicate IsWordByte(b: byte) {
    IsAsciiAlphabetic(b) || b == 0x5F
  }

  /** The three classes of bytes the lexer scans runs of. */
  datatype RunClass = Spaces | Word | Digits

  predicate InClass(p: RunClass, b: byte) {
    match p
    case Spaces => IsAsciiWhitespace(b)
    case Word => IsWordByte(b)
    case Digits => IsAsciiDigit(b)
  }

  /** The end of the maximal run of bytes satisfying `p` that starts at `i`:
      the first index at or after `i` whose byte, read as `At` reads it, is
      not in the class. */
  function RunEnd(input: seq<byte>, i: nat, p: RunClass): (e: nat)
    ensures i <= e
    ensures i < e ==> e <= |input|
    ensures forall k :: i <= k < e ==> InClass(p, input[k])
    ensures !InClass(p, At(input, e))
    decreases |input| - i
  {
    if i < |input| && InClass(p, input[i]) then RunEnd(input, i + 1, p) else i
  }

  /** The maximal-run property pins `RunEnd` down: any `e` whose run from `i`
      holds only class bytes and stops at a non-class byte is `RunEnd`. */
  lemma {:induction false} RunEndUnique(input: seq<byte>, i: nat, e: nat, p: RunClass)
    requires i <= e && (i < e ==> e <= |input|)
    requires forall k :: i <= k < e ==> InClass(p, input[k])
    requires !InClass(p, At(input, e))
    ensures RunEnd(input, i, p) == e
    decreases e - i
  {
    if i < e {
      RunEndUnique(input, i + 1, e, p);
    }
  }

  /** A run that starts at or before a byte outside the class ends there at
      the latest. */
  lemma {:induction false} RunEndBefore(input: seq<byte>, i: nat, z: nat, p: RunClass)
    requires i <= z && !InClass(p, At(input, z))
    ensures RunEnd(input, i, p) <= z
    decreases z - i
  {
    if i < z {
      RunEndBefore(input, i + 1, z, p);
    }
  }

  /** Bytes appended after a run do not change it when the run stops inside
      the prefix, or when the appended part does not start with a class byte. */
  lemma RunEndAppend(a: seq<byte>, b: seq<byte>, i: nat, p: RunClass)
    requires i <= |a|
    requires RunEnd(a, i, p) < |a| || !InClass(p, At(b, 0))
    ensures RunEnd(a + b, i, p) == RunEnd(a, i, p)
  {
    var e := RunEnd(a, i, p);
    if e < |a| {
      assert At(a + b, e) == At(a, e);
    } else {
      assert At(a + b, e) == At(b, 0);
    }
    RunEndUnique(a + b, i, e, p);
  }

  /** Bytes put in front of the buffer shift a run without changing it. */
  lemma RunEndShift(w: seq<byte>, s: seq<byte>, i: nat, p: RunClass)
    ensures RunEnd(w + s, |w| + i, p) == |w| + RunEnd(s, i, p)
  {
    var e := RunEnd(s, i, p);
    assert At(w + s, |w| + e) == At(s, e);
    assert forall k :: |w| + i <= k < |w| + e ==> (w + s)[k] == s[k - |w|];
    RunEndUnique(w + s, |w| + i, |w| + e, p);
  }

  /** `String::from_utf8_lossy` on a slice of ASCII bytes: each byte becomes
      the character with the same code. The lexer only converts runs of
      ASCII letters, underscores and digits. */
  function AsciiText(bs: seq<byte>): (s: string)
    requires forall k :: 0 <= k < |bs| ==> bs[k] < 0x80
    ensures |s| == |bs|
    ensures forall k :: 0 <= k < |bs| ==> s[k] as int == bs[k] as int
  {
    seq(|bs|, k requires 0 <= k < |bs| => bs[k] as int as char)
  }

  /** The UTF-8 encoding of one character, as `String::into_bytes` lays it out. */
  function EncodeChar(c: char): (bs: seq<byte>)
    ensures 1 <= |bs| <= 4
    ensures (c as int < 0x80) <==> (|bs| == 1)
    ensures c as int < 0x80 ==> bs[0] as int == c as int
    ensures c as int >= 0x80 ==> forall k :: 0 <= k < |bs| ==> bs[k] >= 0x80
  {
    var cp := c as int;
    if cp < 0x80 then
      [cp as byte]
    else if cp < 0x800 then
      [(0xC0 + cp / 0x40) as byte, (0x80 + cp % 0x40) as byte]
    else if cp < 0x1_0000 then
      [(0xE0 + cp / 0x1000) as byte, (0x80 + cp / 0x40 % 0x40) as byte,
       (0x80 + cp % 0x40) as byte]
    else
      [(0xF0 + cp / 0x4_0000) as byte, (0x80 + cp / 0x1000 % 0x40) as byte,
       (0x80 + cp / 0x40 % 0x40) as byte, (0x80 + cp % 0x40) as byte]
  }

  /** `String::into_bytes`: the UTF-8 encoding of the whole string. */
  function IntoBytes(s: string): (bs: seq<byte>)
    ensures |bs| >= |s|
  {
    if s == [] then [] else EncodeChar(s[0]) + IntoBytes(s[1..])
  }

  /** The encoding of a concatenation is the concatenation of the encodings. */
  lemma {:induction false} IntoBytesAppend(s: string, t: string)
    ensures IntoBytes(s + t) == IntoBytes(s) + IntoBytes(t)
  {
    if s != [] {
      assert (s + t)[1..] == s[1..] + t;
      IntoBytesAppend(s[1..], t);
    } else {
      assert s + t == t;
    }
  }

  predicate IsAscii(s: string) {
    forall k :: 0 <= k < |s| ==> s[k] as int < 0x80
  }

  /** On an ASCII string the encoding keeps one byte per character, with the
      character's code; so `AsciiText` undoes it. */
  lemma {:induction false} AsciiIntoBytes(s: string)
    requires IsAscii(s)
    ensures |IntoBytes(s)| == |s|
    ensures forall k :: 0 <= k < |s| ==> IntoBytes(s)[k] as int == s[k] as int
    ensures AsciiText(IntoBytes(s)) == s
  {
    if s != [] {
      AsciiIntoBytes(s[1..]);
      var bs := IntoBytes(s);
      assert bs == EncodeChar(s[0]) + IntoBytes(s[1..]);
      forall k | 0 <= k < |s| ensures bs[k] as int == s[k] as int {
        if k > 0 {
          assert bs[k] == IntoBytes(s[1..])[k - 1];
        }
      }
    }
  }
}
