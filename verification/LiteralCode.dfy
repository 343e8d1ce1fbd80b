/** The loops that write and read literals, proved against `EscapedAll` and `DecodeAt`. */
module LiteralCode {
  import opened Bytes
  import opened Literal

  /** The two tables once acceptchars_init has run. */
  ghost predicate Tables(accept: seq<bool>, reject: seq<seq<Byte>>) {
    && |accept| == 256 && |reject| == 256
    && (forall c: Byte :: accept[c] <==> Accepted(c))
    && (forall c: Byte | !Accepted(c) :: reject[c] == Escaped(c))
  }

  /** acceptchars_init where the character set is ASCII; `reject` starts as the table of hexadecimal escapes. */
  method AcceptCharsInit(accept: array<bool>, reject: array<seq<Byte>>)
    requires accept.Length == 256 && reject.Length == 256
    requires forall c: Byte :: reject[c] == [BACKSLASH, LETTER_X, HexDigit(c / 16), HexDigit(c % 16)]
    modifies accept, reject
    ensures Tables(accept[..], reject[..])
  {
    InitReject(reject);
    InitAccept(accept);
  }

  method InitReject(reject: array<seq<Byte>>)
    requires reject.Length == 256
    requires forall c: Byte :: reject[c] == [BACKSLASH, LETTER_X, HexDigit(c / 16), HexDigit(c % 16)]
    modifies reject
    ensures forall c: Byte | !Accepted(c) :: reject[c] == Escaped(c)
  {
    reject[QUOTE] := [BACKSLASH, QUOTE];
    reject[APOSTROPHE] := [BACKSLASH, APOSTROPHE];
    reject[BACKSLASH] := [BACKSLASH, BACKSLASH];
    reject[NEWLINE] := [BACKSLASH, LETTER_N];
    reject[RETURN] := [BACKSLASH, LETTER_R];
    reject[TAB] := [BACKSLASH, LETTER_T];
  }

  method InitAccept(accept: array<bool>)
    requires accept.Length == 256
    modifies accept
    ensures forall c: Byte :: accept[c] <==> Accepted(c)
  {
    accept[QUOTE], accept[APOSTROPHE], accept[BACKSLASH] := false, false, false;
    accept[NEWLINE], accept[RETURN], accept[TAB] := false, false, false;
    for i := 0 to 256
      invariant !accept[QUOTE] && !accept[APOSTROPHE] && !accept[BACKSLASH]
      invariant forall c: Byte | c < i && c != QUOTE && c != APOSTROPHE && c != BACKSLASH :: accept[c]
    {
      if i != QUOTE && i != APOSTROPHE && i != BACKSLASH {
        accept[i] := true;
      }
    }
    for i := 128 to 256
      invariant forall c: Byte | 128 <= c < i :: !accept[c]
      invariant !accept[QUOTE] && !accept[APOSTROPHE] && !accept[BACKSLASH]
      invariant forall c: Byte | c < 128 && c != QUOTE && c != APOSTROPHE && c != BACKSLASH :: accept[c]
    {
      accept[i] := false;
    }
    accept[127] := false;
    for i := 0 to 32
      invariant forall c: Byte :: accept[c] <==> Accepted(c) || (i <= c < 32)
    {
      accept[i] := false;
    }
  }

  /** What is still to be written of a C string from position `i` on. */
  ghost function Owed(s: seq<Byte>, i: nat): seq<Byte>
    requires i <= |s|
  {
    EscapedAll(CString(s[i..]))
  }

  lemma OwedStep(s: seq<Byte>, i: nat)
    requires i < |s| && NUL in s[i..]
    ensures s[i] == NUL ==> Owed(s, i) == []
    ensures s[i] != NUL ==> Owed(s, i) == Escaped(s[i]) + Owed(s, i + 1) && i + 1 < |s| && NUL in s[i + 1..]
  {
    assert s[i..][1..] == s[i + 1..];
    if s[i] != NUL {
      assert CString(s[i..])[1..] == CString(s[i + 1..]);
      assert s[i..] == [s[i]] + s[i + 1..];
    }
  }

  /** One byte of file_escape_string; `over` at the terminator. */
  method PutByte(accept: array<bool>, reject: array<seq<Byte>>, uch: Byte, out: seq<Byte>)
    returns (over: bool, out': seq<Byte>)
    requires Tables(accept[..], reject[..])
    ensures over <==> uch == NUL
    ensures out' == if over then out else out + Escaped(uch)
  {
    over, out' := false, out;
    assert accept[uch] == accept[..][uch] && reject[uch] == reject[..][uch];
    if accept[uch] {
      out' := out + [uch];
    } else if uch == NUL {
      over := true;
    } else {
      out' := out + reject[uch];
    }
  }

  /** file_escape_string, eight bytes to a round: writes the escapes of the bytes before the terminator. */
  method FileEscapeString(accept: array<bool>, reject: array<seq<Byte>>, str: seq<Byte>) returns (out: seq<Byte>)
    requires Tables(accept[..], reject[..]) && NUL in str
    ensures out == EscapedAll(CString(str))
  {
    hide Tables, Escaped, Owed, CString, EscapedAll;
    out := [];
    var ptr := 0;
    assert str[0..] == str;
    ghost var all := Owed(str, 0);
    assert all == EscapedAll(CString(str)) by {
      OwedAll(str);
    }
    while str[ptr] != NUL
      invariant 0 <= ptr < |str| && NUL in str[ptr..] && out + Owed(str, ptr) == all
      decreases |str| - ptr
    {
      var start := ptr;
      for k := 0 to 8
        invariant ptr == start + k < |str| && NUL in str[ptr..] && out + Owed(str, ptr) == all
      {
        OwedStep(str, ptr);
        var over, out' := PutByte(accept, reject, str[ptr], out);
        if over {
          return;
        }
        assert out + (Escaped(str[ptr]) + Owed(str, ptr + 1)) == out' + Owed(str, ptr + 1);
        out, ptr := out', ptr + 1;
      }
    }
    OwedStep(str, ptr);
  }

  lemma OwedAll(s: seq<Byte>)
    ensures Owed(s, 0) == EscapedAll(CString(s))
  {
    assert s[0..] == s;
  }

  /** What a decoder reports: a string of `sz` bytes and the position after its quote, no string, the end of the
      program, or a read past the end of the text. */
  datatype Outcome = Str(sz: nat, end: nat) | NoString | Exit | Overrun

  predicate Reports(r: Outcome, l: Reading) {
    match l
    case Read(b, end) => r == Str(|b|, end)
    case Unclosed => r == NoString || r == Overrun
    case BadEscape => r == Exit
  }

  /** A C string that fills its array from `start` on. */
  ghost predicate Terminated(s: seq<Byte>, start: nat) {
    start < |s| && s[|s| - 1] == NUL && forall k | start <= k < |s| - 1 :: s[k] != NUL
  }

  /** What one round of a decoder does: both positions move on, or decoding is over. */
  datatype Round = Go(i: nat, j: nat) | Stop(why: Outcome)

  /** The three branches that write a 16-bit code as UTF-8. */
  method PutCode(buf: array<Byte>, j: nat, unicode: int) returns (j': nat)
    requires 0 <= unicode < 0x10000 && j + |Utf8(unicode)| <= buf.Length
    modifies buf
    ensures j' == j + |Utf8(unicode)| && buf[j..j'] == Utf8(unicode)
    ensures forall k | 0 <= k < buf.Length && (k < j || k >= j') :: buf[k] == old(buf[k])
  {
    if unicode <= 0x7F {
      buf[j] := unicode;
      return j + 1;
    }
    if unicode <= 0x7FF {
      buf[j] := 0xC0 + unicode / 64;
      buf[j + 1] := 0x80 + unicode % 64;
      return j + 2;
    }
    buf[j] := 0xE0 + unicode / 4096;
    buf[j + 1] := 0x80 + unicode / 64 % 64;
    buf[j + 2] := 0x80 + unicode % 64;
    return j + 3;
  }

  /** The escape branches shared by dbyy_escape_string, where `buf` is the text itself, and yy_escape_string. */
  method Unescape(orig: array<Byte>, i: nat, buf: array<Byte>, j: nat) returns (r: Round)
    requires i < orig.Length && orig[i] == BACKSLASH
    requires (buf == orig && j < i) || (buf != orig && j + 3 <= buf.Length)
    modifies buf
    ensures match old(EscapeAt(orig[..], i))
      case Piece(b, next) => r == Go(next, j + |b|) && j + |b| <= buf.Length && buf[j..j + |b|] == b
      case Malformed => r == Stop(Exit)
      case Cut => r == Stop(Overrun)
    ensures forall k | 0 <= k < buf.Length && (k < j || (r.Go? && k >= r.j)) :: buf[k] == old(buf[k])
  {
    if i + 1 >= orig.Length || orig[i + 1] == NUL {
      return Stop(Overrun);
    }
    if orig[i + 1] == LETTER_X {
      if i + 3 >= orig.Length {
        return Stop(Overrun);
      }
      var x := Strtol16(orig[i + 2..i + 4]);
      if x == NotNumber {
        return Stop(Exit);
      }
      buf[j] := x.value % 256;
      return Go(i + 4, j + 1);
    }
    if orig[i + 1] == LETTER_U {
      if i + 5 >= orig.Length {
        return Stop(Overrun);
      }
      var x := Strtol16(orig[i + 2..i + 6]);
      if x == NotNumber {
        return Stop(Exit);
      }
      var j' := PutCode(buf, j, x.value % 0x10000);
      return Go(i + 6, j');
    }
    if orig[i + 1] == LETTER_T {
      buf[j] := TAB;
    } else if orig[i + 1] == LETTER_R {
      buf[j] := RETURN;
    } else if orig[i + 1] == LETTER_N {
      buf[j] := NEWLINE;
    } else {
      buf[j] := orig[i + 1];
    }
    r := Go(i + 2, j + 1);
  }

  /** Decoding up to `i` gave `done`; what the whole literal gives follows from the rest. */
  ghost predicate Resumes(s: seq<Byte>, from: nat, done: seq<Byte>, i: nat) {
    DecodeAt(s, from) == Then(done, DecodeAt(s, i))
  }

  lemma ResumesPlain(s: seq<Byte>, from: nat, done: seq<Byte>, i: nat)
    requires Resumes(s, from, done, i) && i < |s| && s[i] != NUL && s[i] != QUOTE && s[i] != BACKSLASH
    ensures Resumes(s, from, done + [s[i]], i + 1)
  {
    ThenTwice(done, [s[i]], DecodeAt(s, i + 1));
  }

  lemma ResumesEscape(s: seq<Byte>, from: nat, done: seq<Byte>, i: nat)
    requires Resumes(s, from, done, i) && i < |s| && s[i] == BACKSLASH
    ensures match EscapeAt(s, i)
      case Piece(b, next) => Resumes(s, from, done + b, next)
      case Malformed => DecodeAt(s, from) == BadEscape
      case Cut => DecodeAt(s, from) == Unclosed
  {
    if EscapeAt(s, i).Piece? {
      ThenTwice(done, EscapeAt(s, i).bytes, DecodeAt(s, EscapeAt(s, i).next));
    }
  }

  /** The state of the in-place decoder: what is decoded so far stands at `start`, everything from `i` on is unread. */
  ghost predicate InProgress(now: seq<Byte>, s: seq<Byte>, start: nat, i: nat, j: nat) {
    && |now| == |s| && start + j < i < |s|
    && (forall k | i <= k < |s| :: now[k] == s[k])
    && Resumes(s, start + 1, now[start..start + j], i)
  }

  /** Copying the byte at `i` down. */
  method CopyByte(line: array<Byte>, start: nat, i: nat, j: nat, ghost s: seq<Byte>) returns (over: bool)
    requires Terminated(s, start) && InProgress(line[..], s, start, i, j) && line[i] != QUOTE && line[i] != BACKSLASH
    modifies line
    ensures forall k | 0 <= k < start :: line[k] == old(line[k])
    ensures over ==> s[i] == NUL && line[..] == old(line[..])
    ensures !over ==> InProgress(line[..], s, start, i + 1, j + 1)
  {
    hide Resumes;
    assert line[i] == line[..][i] == s[i];
    if line[i] == NUL {
      return true;
    }
    ResumesPlain(s, start + 1, line[..][start..start + j], i);
    ghost var before := line[..][start..start + j];
    line[start + j] := line[i];
    assert line[..][start..start + j + 1] == before + [s[i]];
    return false;
  }

  /** The unrolled copy: one plain byte, then up to seven more; the tests in between do not look for the terminator. */
  method CopyRun(line: array<Byte>, start: nat, i0: nat, j0: nat, ghost s: seq<Byte>) returns (r: Round)
    requires Terminated(s, start) && InProgress(line[..], s, start, i0, j0)
    requires line[i0] != QUOTE && line[i0] != BACKSLASH && line[i0] != NUL
    modifies line
    ensures forall k | 0 <= k < start :: line[k] == old(line[k])
    ensures if r.Go? then r.i > i0 && InProgress(line[..], s, start, r.i, r.j)
      else r.why == Overrun && DecodeAt(s, start + 1) == Unclosed
  {
    hide InProgress;
    InRange(line[..], s, start, i0, j0);
    var i, j := i0, j0;
    for n := 0 to 8
      invariant line.Length == |s| && i0 <= i < |s| && (if n == 0 then i == i0 && line[..] == old(line[..]) else i > i0)
      invariant forall k | 0 <= k < start :: line[k] == old(line[k])
      invariant InProgress(line[..], s, start, i, j)
    {
      if n == 0 || (line[i] != BACKSLASH && line[i] != QUOTE) {
        var over := CopyByte(line, start, i, j, s);
        if over {
          Unread(line[..], s, start, i, j);
          return Stop(Overrun);
        }
        i, j := i + 1, j + 1;
        InRange(line[..], s, start, i, j);
      }
    }
    r := Go(i, j);
  }

  lemma InRange(now: seq<Byte>, s: seq<Byte>, start: nat, i: nat, j: nat)
    requires InProgress(now, s, start, i, j)
    ensures |now| == |s| && start + j < i < |s| && now[i] == s[i]
  {
  }

  /** Reaching the terminator means the literal is not closed. */
  lemma Unread(now: seq<Byte>, s: seq<Byte>, start: nat, i: nat, j: nat)
    requires InProgress(now, s, start, i, j) && s[i] == NUL
    ensures DecodeAt(s, start + 1) == Unclosed
  {
  }

  /** One escape sequence of the in-place decoder. */
  method EscapeRun(line: array<Byte>, start: nat, i: nat, j: nat, ghost s: seq<Byte>) returns (r: Round)
    requires Terminated(s, start) && InProgress(line[..], s, start, i, j) && line[i] == BACKSLASH
    modifies line
    ensures forall k | 0 <= k < start :: line[k] == old(line[k])
    ensures if r.Go? then r.i > i && InProgress(line[..], s, start, r.i, r.j)
      else !r.why.Str? && Reports(r.why, DecodeAt(s, start + 1))
  {
    hide Resumes, Utf8, Strtol16, DecodeAt, Then;
    ghost var now := line[..];
    assert now[i] == s[i];
    ResumesEscape(s, start + 1, now[start..start + j], i);
    SameEscape(now, s, i);
    EscapeEnds(s, start, i);
    r := Unescape(line, i, line, start + j);
    if r.Go? {
      r := Go(r.i, r.j - start);
      ghost var p := EscapeAt(s, i);
      assert line[..][start..start + r.j] == now[start..start + j] + p.bytes by {
        assert line[..][start..start + r.j] == line[start..start + j] + line[start + j..start + r.j];
        assert line[start..start + j] == now[start..start + j];
      }
    }
  }

  lemma SameEscape(now: seq<Byte>, s: seq<Byte>, i: nat)
    requires |now| == |s| && i < |s| && now[i] == s[i] == BACKSLASH && forall k | i <= k < |s| :: now[k] == s[k]
    ensures EscapeAt(now, i) == EscapeAt(s, i)
  {
    if i + 3 < |s| {
      assert now[i + 2..i + 4] == s[i + 2..i + 4];
    }
    if i + 5 < |s| {
      assert now[i + 2..i + 6] == s[i + 2..i + 6];
    }
  }

  /** No escape sequence reaches over the terminator. */
  lemma EscapeEnds(s: seq<Byte>, start: nat, i: nat)
    requires Terminated(s, start) && start <= i < |s| && s[i] == BACKSLASH
    ensures EscapeAt(s, i).Piece? ==> EscapeAt(s, i).next < |s|
  {
    if i + 3 == |s| - 1 && s[i + 1] == LETTER_X {
      NotHex(s[i + 2..i + 4]);
    }
    if i + 5 == |s| - 1 && s[i + 1] == LETTER_U {
      NotHex(s[i + 2..i + 6]);
    }
  }

  /** A text that ends with the terminator is not a number. */
  lemma {:induction false} NotHex(h: seq<Byte>)
    requires h != [] && h[|h| - 1] == NUL
    ensures Strtol16(h) == NotNumber
  {
    SpaceKeepsEnd(h);
    var a := SkipSpace(h);
    var b := if a != [] && (a[0] == 45 || a[0] == 43) then a[1..] else a;
    var c := if |b| > 2 && b[0] == 48 && (b[1] == 120 || b[1] == 88) then b[2..] else b;
    assert c != [] && c[|c| - 1] == NUL;
  }

  lemma {:induction false} SpaceKeepsEnd(h: seq<Byte>)
    requires h != [] && h[|h| - 1] == NUL
    ensures SkipSpace(h) != [] && SkipSpace(h)[|SkipSpace(h)| - 1] == NUL
    decreases |h|
  {
    if 9 <= h[0] <= 13 || h[0] == SPACE {
      SpaceKeepsEnd(h[1..]);
    }
  }

  /** dbyy_escape_string: decodes the literal that opens at `start` over its own text.  Nothing before `start` and
      nothing from the end of the literal on is written, and the string is terminated below the read position. */
  method DecodeInPlace(line: array<Byte>, start: nat) returns (r: Outcome)
    requires Terminated(line[..], start) && line[start] == QUOTE
    modifies line
    ensures Reports(r, old(DecodeAt(line[..], start + 1)))
    ensures forall k | 0 <= k < start :: line[k] == old(line[k])
    ensures r.Str? ==> start + r.sz < r.end < line.Length
    ensures r.Str? ==>
      line[start..start + r.sz] == old(DecodeAt(line[..], start + 1)).bytes && line[start + r.sz] == NUL
    ensures r.Str? ==> forall k | r.end <= k < line.Length :: line[k] == old(line[k])
  {
    hide Resumes, DecodeAt;
    ghost var s := line[..];
    assert s[start] == line[start];
    var i, j := start + 1, 0;
    Begins(s, start);
    while line[i] != QUOTE && line[i] != NUL
      invariant line.Length == |s| && start + j < i < |s|
      invariant InProgress(line[..], s, start, i, j)
      invariant forall k | 0 <= k < start :: line[k] == s[k]
      decreases |s| - i
    {
      var round;
      if line[i] != BACKSLASH {
        round := CopyRun(line, start, i, j, s);
      } else {
        round := EscapeRun(line, start, i, j, s);
      }
      if round.Stop? {
        return round.why;
      }
      i, j := round.i, round.j;
    }
    if line[i] == NUL {
      Unread(line[..], s, start, i, j);
      return NoString;
    }
    Closes(line[..], s, start, i, j);
    ghost var done := line[..][start..start + j];
    line[start + j] := NUL;
    assert line[start..start + j] == done;
    return Str(j, i + 1);
  }

  lemma Begins(s: seq<Byte>, start: nat)
    requires Terminated(s, start) && s[start] == QUOTE
    ensures start + 1 < |s| && InProgress(s, s, start, start + 1, 0)
  {
    assert s[start..start] == [];
    assert Then([], DecodeAt(s, start + 1)) == DecodeAt(s, start + 1) by {
      if DecodeAt(s, start + 1).Read? {
        assert [] + DecodeAt(s, start + 1).bytes == DecodeAt(s, start + 1).bytes;
      }
    }
  }

  lemma Closes(now: seq<Byte>, s: seq<Byte>, start: nat, i: nat, j: nat)
    requires Terminated(s, start) && InProgress(now, s, start, i, j) && now[i] == QUOTE
    ensures i + 1 < |s| && start + j < i && DecodeAt(s, start + 1) == Read(now[start..start + j], i + 1)
    ensures forall k | i < k < |s| :: now[k] == s[k]
  {
    assert DecodeAt(s, i) == Read([], i + 1);
    assert now[start..start + j] + [] == now[start..start + j];
  }

  /** The growing decoder's realloc: room for one more round. */
  method Reserve(buf: array<Byte>, j: nat) returns (buf': array<Byte>)
    requires j <= buf.Length
    ensures j + 7 < buf'.Length && buf'[..j] == buf[..j]
    ensures if j + 7 < buf.Length then buf' == buf else fresh(buf') && buf'.Length > 2 * buf.Length
  {
    if j + 7 < buf.Length {
      return buf;
    }
    var capacity := 2 * buf.Length + 10;
    if capacity < 32 {
      capacity := 32;
    }
    buf' := Enlarge(buf, j, capacity);
  }

  method Enlarge(buf: array<Byte>, j: nat, capacity: nat) returns (buf': array<Byte>)
    requires j <= buf.Length && j <= capacity
    ensures fresh(buf') && buf'.Length == capacity && buf'[..j] == buf[..j]
  {
    buf' := new Byte[capacity];
    for k := 0 to j
      invariant buf'[..k] == buf[..k]
    {
      buf'[k] := buf[k];
    }
  }

  /** The unrolled copy into a buffer with room for eight bytes. */
  method CopyOut(orig: array<Byte>, start: nat, i0: nat, buf: array<Byte>, j0: nat) returns (r: Round)
    requires buf != orig && Terminated(orig[..], start) && start < i0 < orig.Length && j0 + 8 <= buf.Length
    requires orig[i0] != QUOTE && orig[i0] != BACKSLASH && Resumes(orig[..], start + 1, buf[..j0], i0)
    modifies buf
    ensures if r.Go? then i0 < r.i < orig.Length && r.j <= buf.Length && Resumes(orig[..], start + 1, buf[..r.j], r.i)
            else r.why == Overrun && DecodeAt(orig[..], start + 1) == Unclosed
  {
    hide Resumes, DecodeAt;
    var i, j := i0, j0;
    for n := 0 to 8
      invariant 0 <= j <= j0 + n && i0 <= i < orig.Length && (if n == 0 then i == i0 else i > i0)
      invariant Resumes(orig[..], start + 1, buf[..j], i)
    {
      if n == 0 || (orig[i] != BACKSLASH && orig[i] != QUOTE) {
        if orig[i] == NUL {
          NeverCloses(orig[..], start + 1, buf[..j], i);
          return Stop(Overrun);
        }
        ResumesPlain(orig[..], start + 1, buf[..j], i);
        ghost var before := buf[..j];
        buf[j] := orig[i];
        assert buf[..j + 1] == before + [orig[i]];
        i, j := i + 1, j + 1;
      }
    }
    r := Go(i, j);
  }

  lemma NeverCloses(s: seq<Byte>, from: nat, done: seq<Byte>, i: nat)
    requires Resumes(s, from, done, i) && i < |s| && s[i] == NUL
    ensures DecodeAt(s, from) == Unclosed
  {
  }

  /** yy_escape_string: decodes into a growing buffer and hands out a copy; agrees with the in-place decoder on
      every closed literal, and leaves the text alone. */
  method DecodeCopy(orig: array<Byte>, start: nat) returns (r: Outcome, str: array<Byte>)
    requires Terminated(orig[..], start) && orig[start] == QUOTE
    ensures Reports(r, DecodeAt(orig[..], start + 1))
    ensures r.Str? ==> fresh(str) && str[..] == DecodeAt(orig[..], start + 1).bytes + [NUL] && str.Length == r.sz + 1
  {
    hide Resumes, DecodeAt;
    var buf := new Byte[0];
    str := buf;
    var i, j := start + 1, 0;
    assert Resumes(orig[..], start + 1, buf[..j], i) by {
      Begins(orig[..], start);
      assert orig[..][start..start] == buf[..0];
      Started(orig[..], start);
    }
    while orig[i] != QUOTE && orig[i] != NUL
      invariant fresh(buf) && start < i < orig.Length && 0 <= j <= buf.Length
      invariant Resumes(orig[..], start + 1, buf[..j], i)
      decreases orig.Length - i
    {
      buf := Reserve(buf, j);
      var round;
      if orig[i] != BACKSLASH {
        round := CopyOut(orig, start, i, buf, j);
      } else {
        round := EscapeOut(orig, start, i, buf, j);
      }
      if round.Stop? {
        return round.why, buf;
      }
      i, j := round.i, round.j;
    }
    if j >= buf.Length {
      buf := Enlarge(buf, j, 2 * buf.Length + 10);
    }
    if orig[i] == NUL {
      NeverCloses(orig[..], start + 1, buf[..j], i);
      return NoString, buf;
    }
    ClosesCopy(orig[..], start, buf[..j], i);
    ghost var done := buf[..j];
    buf[j] := NUL;
    str := Enlarge(buf, j + 1, j + 1);
    assert str[..] == buf[..j + 1] == done + [NUL];
    return Str(j, i + 1), str;
  }

  lemma Started(s: seq<Byte>, start: nat)
    requires InProgress(s, s, start, start + 1, 0)
    ensures Resumes(s, start + 1, [], start + 1)
  {
    assert s[start..start] == [];
  }

  lemma ClosesCopy(s: seq<Byte>, start: nat, done: seq<Byte>, i: nat)
    requires start < i < |s| && Resumes(s, start + 1, done, i) && s[i] == QUOTE
    ensures DecodeAt(s, start + 1) == Read(done, i + 1)
  {
    assert DecodeAt(s, i) == Read([], i + 1);
    assert done + [] == done;
  }

  /** One escape sequence of the growing decoder. */
  method EscapeOut(orig: array<Byte>, start: nat, i: nat, buf: array<Byte>, j: nat) returns (r: Round)
    requires buf != orig && Terminated(orig[..], start) && start < i < orig.Length && j + 7 < buf.Length
    requires orig[i] == BACKSLASH && Resumes(orig[..], start + 1, buf[..j], i)
    modifies buf
    ensures if r.Go? then i < r.i < orig.Length && r.j <= buf.Length && Resumes(orig[..], start + 1, buf[..r.j], r.i)
            else !r.why.Str? && Reports(r.why, DecodeAt(orig[..], start + 1))
  {
    hide Resumes, Utf8, Strtol16, DecodeAt, Then;
    ghost var before := buf[..j];
    ResumesEscape(orig[..], start + 1, before, i);
    EscapeEnds(orig[..], start, i);
    r := Unescape(orig, i, buf, j);
    if r.Go? {
      ghost var p := EscapeAt(orig[..], i);
      assert buf[..r.j] == before + p.bytes by {
        assert buf[..r.j] == buf[..j] + buf[j..r.j];
        assert buf[..j] == before;
      }
    }
  }
}
