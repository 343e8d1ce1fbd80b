/** String literals of the database file: written by file_escape_string, read back by the two decoders. */
module Literal {
  import opened Bytes

  /** acceptchars on an ASCII machine. */
  predicate Accepted(c: Byte) {
    32 <= c <= 126 && c != QUOTE && c != APOSTROPHE && c != BACKSLASH
  }

  /** What a byte is written as: itself, its short escape, or two lower-case hexadecimal digits. */
  function Escaped(c: Byte): (e: seq<Byte>)
    ensures 1 <= |e| <= 4
  {
    if Accepted(c) then [c]
    else if c == QUOTE || c == APOSTROPHE || c == BACKSLASH then [BACKSLASH, c]
    else if c == NEWLINE then [BACKSLASH, LETTER_N]
    else if c == RETURN then [BACKSLASH, LETTER_R]
    else if c == TAB then [BACKSLASH, LETTER_T]
    else [BACKSLASH, LETTER_X, HexDigit(c / 16), HexDigit(c % 16)]
  }

  function EscapedAll(s: seq<Byte>): seq<Byte> {
    if s == [] then [] else Escaped(s[0]) + EscapedAll(s[1..])
  }

  /** The part of a C string before its terminator. */
  function CString(s: seq<Byte>): seq<Byte> {
    if s == [] || s[0] == NUL then [] else [s[0]] + CString(s[1..])
  }

  /** What one escape sequence stands for, and where it ends; `Cut` when the text ends inside it. */
  datatype Piece = Piece(bytes: seq<Byte>, next: nat) | Malformed | Cut

  function EscapeAt(s: seq<Byte>, i: nat): (p: Piece)
    requires i < |s| && s[i] == BACKSLASH
    ensures p.Piece? ==> i + 2 <= p.next <= |s| && |p.bytes| < p.next - i
  {
    if i + 1 >= |s| || s[i + 1] == NUL then Cut
    else if s[i + 1] == LETTER_X then
      if i + 3 >= |s| then Cut
      else (match Strtol16(s[i + 2..i + 4]) case Number(v) => Piece([v % 256], i + 4) case NotNumber => Malformed)
    else if s[i + 1] == LETTER_U then
      if i + 5 >= |s| then Cut
      else (match Strtol16(s[i + 2..i + 6]) case Number(v) => Piece(Utf8(v % 0x10000), i + 6)
        case NotNumber => Malformed)
    else if s[i + 1] == LETTER_T then Piece([TAB], i + 2)
    else if s[i + 1] == LETTER_R then Piece([RETURN], i + 2)
    else if s[i + 1] == LETTER_N then Piece([NEWLINE], i + 2)
    else Piece([s[i + 1]], i + 2)
  }

  /** A literal read from after its opening quote: its bytes and the position after its closing quote. */
  datatype Reading = Read(bytes: seq<Byte>, end: nat) | Unclosed | BadEscape

  function Then(bytes: seq<Byte>, r: Reading): Reading {
    if r.Read? then Read(bytes + r.bytes, r.end) else r
  }

  function DecodeAt(s: seq<Byte>, i: nat): (r: Reading)
    ensures r.Read? ==> i < r.end <= |s| && |r.bytes| < r.end - i
    decreases |s| - i
  {
    if i >= |s| || s[i] == NUL then Unclosed
    else if s[i] == QUOTE then Read([], i + 1)
    else if s[i] != BACKSLASH then Then([s[i]], DecodeAt(s, i + 1))
    else
      match EscapeAt(s, i)
      case Piece(b, next) => Then(b, DecodeAt(s, next))
      case Malformed => BadEscape
      case Cut => Unclosed
  }

  lemma ThenTwice(a: seq<Byte>, b: seq<Byte>, r: Reading)
    ensures Then(a, Then(b, r)) == Then(a + b, r)
  {
    if r.Read? {
      assert a + (b + r.bytes) == a + b + r.bytes;
    }
  }

  /** One written byte is read back as one byte. */
  lemma EscapedReads(s: seq<Byte>, i: nat, c: Byte, rest: seq<Byte>)
    requires c != NUL && i <= |s| && s[i..] == Escaped(c) + rest
    ensures i + |Escaped(c)| <= |s| && DecodeAt(s, i) == Then([c], DecodeAt(s, i + |Escaped(c)|))
  {
    var e := Escaped(c);
    AfterPrefix(s, i, e, rest);
    if !Accepted(c) {
      EscapeReads(s, i, c);
    }
  }

  lemma EscapeReads(s: seq<Byte>, i: nat, c: Byte)
    requires c != NUL && !Accepted(c) && i + |Escaped(c)| <= |s| && s[i..i + |Escaped(c)|] == Escaped(c)
    ensures s[i] == BACKSLASH && EscapeAt(s, i) == Piece([c], i + |Escaped(c)|)
  {
    var e := Escaped(c);
    assert s[i] == s[i..i + |e|][0] && s[i + 1] == s[i..i + |e|][1];
    if |e| == 4 {
      assert s[i + 2..i + 4] == s[i..i + |e|][2..4] == [HexDigit(c / 16), HexDigit(c % 16)];
      TwoDigits(c);
    }
  }

  /** Literal round trip: what file_escape_string writes between two quotes is read back byte for byte, up to the
      position after the closing quote, whatever follows it. */
  lemma {:induction false} LiteralRoundTrip(s: seq<Byte>, i: nat, str: seq<Byte>, rest: seq<Byte>)
    requires NUL !in str && i <= |s| && s[i..] == EscapedAll(str) + ([QUOTE] + rest)
    ensures DecodeAt(s, i) == Read(str, i + |EscapedAll(str)| + 1)
    decreases |str|
  {
    hide DecodeAt, Escaped;
    if str == [] {
      ClosingQuote(s, i, rest);
    } else {
      var c, tail := str[0], [QUOTE] + rest;
      assert c in str;
      var e, more := Escaped(c), EscapedAll(str[1..]);
      Regroup(e, more, tail);
      AfterPrefix(s, i, e, more + tail);
      EscapedReads(s, i, c, more + tail);
      LiteralRoundTrip(s, i + |e|, str[1..], rest);
      assert [c] + str[1..] == str;
    }
  }

  lemma ClosingQuote(s: seq<Byte>, i: nat, rest: seq<Byte>)
    requires i <= |s| && s[i..] == EscapedAll([]) + ([QUOTE] + rest)
    ensures DecodeAt(s, i) == Read([], i + 1) && |EscapedAll([])| == 0
  {
    AfterPrefix(s, i, [], [QUOTE] + rest);
  }
}
