/** What the escapes of a string literal stand for, told from the character codes: also those that are never written. */
module LiteralLaws {
  import opened Bytes
  import opened Literal

  /** The character `c` is the hexadecimal digit worth `v`, in either case. */
  predicate DigitOf(c: Byte, v: nat) {
    || (v < 10 && c == 48 + v)
    || (10 <= v < 16 && (c == 65 + (v - 10) || c == 97 + (v - 10)))
  }

  lemma DigitValue(c: Byte, v: nat)
    requires DigitOf(c, v)
    ensures IsHex(c) && HexValue(c) == v && c != 120 && c != 88 && c != 43 && c != 45 && c != 32 && !(9 <= c <= 13)
    ensures c != NUL && c != QUOTE && c != BACKSLASH
  {
  }

  /** Every hexadecimal digit has a value, and nothing else has one. */
  lemma DigitsAre(c: Byte)
    ensures IsHex(c) <==> exists v: nat :: v < 16 && DigitOf(c, v)
  {
    if IsHex(c) {
      assert DigitOf(c, if c <= 57 then c - 48 else if c <= 70 then c - 55 else c - 87);
    }
  }

  lemma TwoDigitNumber(a: Byte, b: Byte, v: nat, w: nat)
    requires DigitOf(a, v) && DigitOf(b, w)
    ensures HexNumber([a, b]) == 16 * v + w && Strtol16([a, b]) == Number(16 * v + w)
  {
    DigitValue(a, v);
    DigitValue(b, w);
    var h := [a, b];
    assert h[..1] == [a] && [a][..0] == [];
    assert SkipSpace(h) == h;
  }

  lemma FourDigitNumber(a: Byte, b: Byte, c: Byte, d: Byte, v: seq<nat>)
    requires |v| == 4 && DigitOf(a, v[0]) && DigitOf(b, v[1]) && DigitOf(c, v[2]) && DigitOf(d, v[3])
    ensures Strtol16([a, b, c, d]) == Number(4096 * v[0] + 256 * v[1] + 16 * v[2] + v[3])
  {
    DigitValue(a, v[0]);
    DigitValue(b, v[1]);
    DigitValue(c, v[2]);
    DigitValue(d, v[3]);
    TwoDigitNumber(a, b, v[0], v[1]);
    var two, three, four := [a, b], [a, b, c], [a, b, c, d];
    assert three[..2] == two && four[..3] == three;
    assert HexNumber(three) == 16 * HexNumber(two) + v[2];
    assert HexNumber(four) == 16 * HexNumber(three) + v[3];
    assert SkipSpace(four) == four;
  }

  /** A literal that starts with an escape, taken apart. */
  lemma EscapeFirst(s: seq<Byte>, i: nat, e: seq<Byte>, rest: seq<Byte>)
    requires i <= |s| && |e| >= 2 && e[0] == BACKSLASH && s[i..] == e + rest
    ensures i + |e| <= |s| && s[i] == BACKSLASH && forall k | 0 <= k < |e| :: s[i + k] == e[k]
    ensures s[i + |e|..] == rest
    ensures forall k, l | 0 <= k <= l <= |e| :: s[i + k..i + l] == e[k..l]
  {
    AfterPrefix(s, i, e, rest);
    forall k | 0 <= k < |e|
      ensures s[i + k] == e[k]
    {
      assert s[i + k] == s[i..][k];
    }
  }

  lemma Closes(s: seq<Byte>, i: nat, rest: seq<Byte>)
    requires i <= |s| && s[i..] == [QUOTE] + rest
    ensures DecodeAt(s, i) == Read([], i + 1)
  {
    assert s[i] == s[i..][0];
  }

  /** A `u` escape with four hexadecimal digits, in either case, reads as the shortest UTF-8 form of the code they
      write, all sixteen bits of it. */
  lemma UnicodeEscape(s: seq<Byte>, i: nat, h: seq<Byte>, v: seq<nat>, rest: seq<Byte>)
    requires |h| == |v| == 4 && forall k | 0 <= k < 4 :: DigitOf(h[k], v[k])
    requires i <= |s| && s[i..] == [BACKSLASH, LETTER_U, h[0], h[1], h[2], h[3]] + ([QUOTE] + rest)
    ensures DecodeAt(s, i).Read? && DecodeAt(s, i).end == i + 7
    ensures FromUtf8(DecodeAt(s, i).bytes) == 4096 * v[0] + 256 * v[1] + 16 * v[2] + v[3]
    ensures forall b: seq<Byte> | FromUtf8(b) == 4096 * v[0] + 256 * v[1] + 16 * v[2] + v[3] ::
      |b| >= |DecodeAt(s, i).bytes|
  {
    hide FromUtf8, Utf8, HexNumber, Strtol16, DecodeAt, DigitOf;
    var e: seq<Byte> := [BACKSLASH, LETTER_U, h[0], h[1], h[2], h[3]];
    var u := 4096 * v[0] + 256 * v[1] + 16 * v[2] + v[3];
    EscapeFirst(s, i, e, [QUOTE] + rest);
    assert s[i + 2..i + 6] == e[2..6] == [h[0], h[1], h[2], h[3]];
    FourDigitNumber(h[0], h[1], h[2], h[3], v);
    InRange(h, v);
    assert EscapeAt(s, i) == Piece(Utf8(u), i + 6);
    Closes(s, i + 6, rest);
    ReadsPiece(s, i, Utf8(u), i + 6);
    assert Utf8(u) + [] == Utf8(u);
    Utf8RoundTrip(u, []);
  }

  lemma InRange(h: seq<Byte>, v: seq<nat>)
    requires |h| == |v| == 4 && forall k | 0 <= k < 4 :: DigitOf(h[k], v[k])
    ensures 0 <= 4096 * v[0] + 256 * v[1] + 16 * v[2] + v[3] < 0x10000
  {
    assert forall k | 0 <= k < 4 :: v[k] < 16;
  }

  /** One escape and then the closing quote. */
  lemma ReadsPiece(s: seq<Byte>, i: nat, b: seq<Byte>, next: nat)
    requires i < |s| && s[i] == BACKSLASH && EscapeAt(s, i) == Piece(b, next) && DecodeAt(s, next) == Read([], next + 1)
    ensures DecodeAt(s, i) == Read(b, next + 1)
  {
    assert b + [] == b;
  }

  /** An `x` escape with two hexadecimal digits, in either case, reads as the byte they write. */
  lemma HexEscape(s: seq<Byte>, i: nat, a: Byte, b: Byte, v: nat, w: nat, rest: seq<Byte>)
    requires DigitOf(a, v) && DigitOf(b, w)
    requires i <= |s| && s[i..] == [BACKSLASH, LETTER_X, a, b] + ([QUOTE] + rest)
    ensures DecodeAt(s, i) == Read([16 * v + w], i + 5)
  {
    hide HexNumber, Strtol16, DecodeAt;
    var e: seq<Byte> := [BACKSLASH, LETTER_X, a, b];
    EscapeFirst(s, i, e, [QUOTE] + rest);
    assert s[i + 2..i + 4] == e[2..4] == [a, b];
    TwoDigitNumber(a, b, v, w);
    assert EscapeAt(s, i) == Piece([16 * v + w], i + 4);
    Closes(s, i + 4, rest);
    ReadsPiece(s, i, [16 * v + w], i + 4);
  }

  /** The escapes of one character: three letters stand for control characters, `x` and `u` begin longer escapes, and
      every other character stands for itself. */
  lemma ShortEscape(s: seq<Byte>, i: nat, c: Byte, rest: seq<Byte>)
    requires c != NUL && c != 120 && c != 117 && i <= |s| && s[i..] == [BACKSLASH, c] + ([QUOTE] + rest)
    ensures DecodeAt(s, i) == Read([if c == 116 then 9 else if c == 114 then 13 else if c == 110 then 10 else c], i + 3)
  {
    hide DecodeAt;
    var e: seq<Byte> := [BACKSLASH, c];
    EscapeFirst(s, i, e, [QUOTE] + rest);
    var b := if c == 116 then 9 else if c == 114 then 13 else if c == 110 then 10 else c;
    Closes(s, i + 2, rest);
    ReadsPiece(s, i, [b], i + 2);
  }

  /** Two characters that strtol takes: two digits, or a digit after white space or a sign. */
  lemma TwoCharacters(a: Byte, b: Byte)
    ensures IsHex(a) && IsHex(b) ==> Strtol16([a, b]) == Number(16 * HexValue(a) + HexValue(b))
    ensures !IsHex(a) && IsHex(b) && (9 <= a <= 13 || a == 32 || a == 43) ==> Strtol16([a, b]) == Number(HexValue(b))
    ensures a == 45 && IsHex(b) ==> Strtol16([a, b]) == Number(0 - HexValue(b))
    ensures !IsHex(b) || (!IsHex(a) && !(9 <= a <= 13) && a != 32 && a != 43 && a != 45) ==>
      Strtol16([a, b]) == NotNumber
  {
    var h, one := [a, b], [b];
    var none: seq<Byte> := [];
    assert h[1..] == one && h[..1] == [a] && one[1..] == none && one[..0] == none && [a][..0] == none;
    assert SkipSpace(none) == none;
    assert HexNumber(one) == if IsHex(b) then HexValue(b) else -1;
    assert HexNumber([a]) == if IsHex(a) then HexValue(a) else -1;
    if 9 <= a <= 13 || a == 32 {
      assert SkipSpace(h) == SkipSpace(one);
    } else {
      assert SkipSpace(h) == h;
    }
  }

  /** An `x` escape fails exactly when strtol does not take both characters. */
  lemma BadHexEscape(s: seq<Byte>, i: nat, a: Byte, b: Byte, rest: seq<Byte>)
    requires i <= |s| && s[i..] == [BACKSLASH, LETTER_X, a, b] + rest
    ensures EscapeAt(s, i) == Malformed <==>
      !IsHex(b) || (!IsHex(a) && !(9 <= a <= 13) && a != 32 && a != 43 && a != 45)
  {
    hide HexNumber, Strtol16;
    var e: seq<Byte> := [BACKSLASH, LETTER_X, a, b];
    EscapeFirst(s, i, e, rest);
    assert s[i + 2..i + 4] == e[2..4] == [a, b];
    TwoCharacters(a, b);
  }

  /** Outside escapes, a character other than a quote, a backslash and NUL stands for itself. */
  lemma PlainCharacter(s: seq<Byte>, i: nat)
    requires i < |s| && s[i] != 0 && s[i] != 34 && s[i] != 92
    ensures DecodeAt(s, i) == Then([s[i]], DecodeAt(s, i + 1))
  {
  }

  // What is written

  /** How many characters a byte is written with, and that all of them are printable. */
  lemma WrittenShape(c: Byte)
    ensures |Escaped(c)| == if 32 <= c <= 126 && c != 34 && c != 39 && c != 92 then 1
                            else if c == 34 || c == 39 || c == 92 || c == 9 || c == 10 || c == 13 then 2
                            else 4
    ensures forall k | 0 <= k < |Escaped(c)| :: 32 <= Escaped(c)[k] <= 126
  {
  }

  /** Nothing but printable characters stands in a written string. */
  lemma {:induction false} WrittenPrintable(s: seq<Byte>)
    ensures forall k | 0 <= k < |EscapedAll(s)| :: 32 <= EscapedAll(s)[k] <= 126
    decreases |s|
  {
    if s != [] {
      hide Escaped;
      WrittenShape(s[0]);
      WrittenPrintable(s[1..]);
    }
  }

  // What is cut off

  /** A literal whose text ends after a backslash is not closed. */
  lemma CutBackslash(s: seq<Byte>, i: nat)
    requires i + 1 < |s| && s[i] == 92 && s[i + 1] == 0
    ensures DecodeAt(s, i) == Unclosed
  {
  }

  /** A `u` escape fails when the last of its four characters is no hexadecimal digit, as at the end of the text. */
  lemma BadUnicode(s: seq<Byte>, i: nat, h: seq<Byte>, rest: seq<Byte>)
    requires |h| == 4 && !IsHex(h[3])
    requires i <= |s| && s[i..] == [BACKSLASH, LETTER_U, h[0], h[1], h[2], h[3]] + rest
    ensures DecodeAt(s, i) == BadEscape
  {
    hide HexNumber, Strtol16;
    var e: seq<Byte> := [BACKSLASH, LETTER_U, h[0], h[1], h[2], h[3]];
    EscapeFirst(s, i, e, rest);
    assert s[i + 2..i + 6] == e[2..6] == h;
    LastDigit(h);
  }

  /** strtol does not take a text to its end when that is no digit. */
  lemma LastDigit(h: seq<Byte>)
    requires h != [] && !IsHex(h[|h| - 1])
    ensures Strtol16(h) == NotNumber
  {
    LastStays(h);
  }

  lemma {:induction false} LastStays(h: seq<Byte>)
    requires h != []
    ensures SkipSpace(h) != [] ==> SkipSpace(h)[|SkipSpace(h)| - 1] == h[|h| - 1]
    decreases |h|
  {
    if |h| > 1 {
      LastStays(h[1..]);
    }
  }
}
