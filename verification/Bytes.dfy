/** Bytes of C strings, the characters the database format gives a meaning to, and numbers in base sixteen. */
module Bytes {
  type Byte = b: int | 0 <= b < 256

  const NUL: Byte := 0
  const TAB: Byte := 9
  const NEWLINE: Byte := 10
  const RETURN: Byte := 13
  const SPACE: Byte := 32
  const QUOTE: Byte := 34
  const APOSTROPHE: Byte := 39
  const COLON: Byte := 58
  const EQUALS: Byte := 61
  const BACKSLASH: Byte := 92
  const LETTER_N: Byte := 110
  const LETTER_R: Byte := 114
  const LETTER_T: Byte := 116
  const LETTER_U: Byte := 117
  const LETTER_X: Byte := 120

  predicate IsDigit(c: Byte) {
    48 <= c <= 57
  }

  predicate IsBlank(c: Byte) {
    c == SPACE || c == TAB
  }

  /** Spaces and tabs. */
  predicate Blanks(b: seq<Byte>) {
    forall k | 0 <= k < |b| :: b[k] == 32 || b[k] == 9
  }

  predicate IsHex(c: Byte) {
    IsDigit(c) || 65 <= c <= 70 || 97 <= c <= 102
  }

  function HexValue(c: Byte): (v: nat)
    requires IsHex(c)
    ensures v < 16
  {
    if IsDigit(c) then c - 48 else if c <= 70 then c - 55 else c - 87
  }

  /** The lower-case digit worth `v`. */
  function HexDigit(v: nat): (c: Byte)
    requires v < 16
    ensures IsHex(c) && HexValue(c) == v
  {
    if v < 10 then 48 + v else 87 + v
  }

  /** The number written by hexadecimal digits, when there is at least one digit and nothing else. */
  function HexNumber(h: seq<Byte>): (v: int)
    ensures v >= -1
    decreases |h|
  {
    if h == [] then -1
    else
      var front, last := h[..|h| - 1], h[|h| - 1];
      if !IsHex(last) then -1
      else if front == [] then HexValue(last)
      else if HexNumber(front) == -1 then -1
      else 16 * HexNumber(front) + HexValue(last)
  }

  datatype Parsed = Number(value: int) | NotNumber

  function SkipSpace(h: seq<Byte>): seq<Byte> {
    if h != [] && (9 <= h[0] <= 13 || h[0] == SPACE) then SkipSpace(h[1..]) else h
  }

  /** strtol in base sixteen, when it consumes the whole of `h`: white space, a sign, 0x, and digits. */
  function Strtol16(h: seq<Byte>): Parsed {
    var a := SkipSpace(h);
    var minus := a != [] && a[0] == 45;
    var b := if a != [] && (a[0] == 45 || a[0] == 43) then a[1..] else a;
    var c := if |b| > 2 && b[0] == 48 && (b[1] == 120 || b[1] == 88) then b[2..] else b;
    if HexNumber(c) == -1 then NotNumber else Number(if minus then -HexNumber(c) else HexNumber(c))
  }

  /** Two lower-case digits read back as the byte they stand for. */
  lemma TwoDigits(c: Byte)
    ensures Strtol16([HexDigit(c / 16), HexDigit(c % 16)]) == Number(c)
  {
    var h := [HexDigit(c / 16), HexDigit(c % 16)];
    assert SkipSpace(h) == h;
    assert h[..1] == [HexDigit(c / 16)];
    assert HexNumber(h[..1]) == c / 16;
    assert HexNumber(h) == 16 * (c / 16) + c % 16;
  }

  /** The UTF-8 form of a 16-bit code. */
  function Utf8(u: int): (b: seq<Byte>)
    requires 0 <= u < 0x10000
    ensures |b| == if u <= 0x7F then 1 else if u <= 0x7FF then 2 else 3
  {
    if u <= 0x7F then [u]
    else if u <= 0x7FF then [0xC0 + u / 64, 0x80 + u % 64]
    else [0xE0 + u / 4096, 0x80 + u / 64 % 64, 0x80 + u % 64]
  }

  /** The first code of a UTF-8 string, read as the table in section 3 of RFC 3629 lays the bits out, for codes
      of at most sixteen bits; -1 when the bytes are not in the form the table gives. */
  function FromUtf8(b: seq<Byte>): int {
    if |b| >= 1 && b[0] < 0x80 then b[0]
    else if |b| >= 2 && 0xC0 <= b[0] < 0xE0 && IsContinuation(b[1]) then 64 * Bits(b[0], 0xC0) + Bits(b[1], 0x80)
    else if |b| >= 3 && 0xE0 <= b[0] < 0xF0 && IsContinuation(b[1]) && IsContinuation(b[2]) then
      4096 * Bits(b[0], 0xE0) + 64 * Bits(b[1], 0x80) + Bits(b[2], 0x80)
    else -1
  }

  predicate IsContinuation(c: Byte) {
    0x80 <= c < 0xC0
  }

  /** What a byte holds besides its marker. */
  function Bits(c: Byte, marker: int): int {
    c - marker
  }

  /** Every 16-bit code is recovered from its encoding, which is the shortest the table allows. */
  lemma Utf8RoundTrip(u: int, rest: seq<Byte>)
    requires 0 <= u < 0x10000
    ensures FromUtf8(Utf8(u) + rest) == u
    ensures forall b: seq<Byte> | FromUtf8(b) == u :: |b| >= |Utf8(u)|
  {
    var e := Utf8(u) + rest;
    assert forall k | 0 <= k < |Utf8(u)| :: e[k] == Utf8(u)[k];
  }

  // Texts taken apart

  lemma Regroup<T>(a: seq<T>, b: seq<T>, c: seq<T>)
    ensures a + b + c == a + (b + c)
  {
  }

  lemma SliceAgain<T>(f: seq<T>, i: nat, k: nat)
    requires i + k <= |f|
    ensures f[i..][..k] == f[i..i + k] && f[i..][k..] == f[i + k..]
  {
  }

  lemma Cut<T>(a: seq<T>, k: nat)
    requires k < |a|
    ensures a == a[..k] + [a[k]] + a[k + 1..]
  {
  }

  /** What follows a prefix of the rest of a text. */
  lemma AfterPrefix(s: seq<Byte>, i: nat, a: seq<Byte>, b: seq<Byte>)
    requires i <= |s| && s[i..] == a + b
    ensures i + |a| <= |s| && s[i + |a|..] == b && s[i..i + |a|] == a
    ensures a != [] ==> i < |s| && s[i] == a[0]
    ensures |a| > 1 ==> i + 1 < |s| && s[i + 1] == a[1]
    ensures b != [] ==> i + |a| < |s| && s[i + |a|] == b[0]
  {
    assert s[i..][|a|..] == b && s[i..][..|a|] == a;
    if a != [] {
      assert s[i] == s[i..][0];
    }
    if |a| > 1 {
      assert s[i + 1] == s[i..][1];
    }
    if b != [] {
      assert s[i + |a|] == s[i..][|a|];
    }
  }

  predicate NulFree(names: seq<seq<Byte>>) {
    forall k | 0 <= k < |names| :: NUL !in names[k]
  }

  /** The length of the first line of a text, with its newline. */
  function FirstLine(text: seq<Byte>): (n: nat)
    ensures n <= |text| && (text != [] ==> n > 0)
    ensures forall k | 0 <= k < n - 1 :: text[k] != NEWLINE
    ensures n < |text| ==> n > 0 && text[n - 1] == NEWLINE
  {
    if text == [] then 0 else if text[0] == NEWLINE then 1 else 1 + FirstLine(text[1..])
  }
}
