/** The loops that read dependency files, proved against `DepFile`. */
module DepFileCode {
  import opened Options
  import opened Bytes
  import opened DepFile

  const ASCII_SET: bv64 := 0x400001100000601

  /** inset_ascii: one bit of a constant for each byte below 64, and the backslash. */
  predicate InsetAscii(ch: Byte): (r: bool)
    ensures r <==> Special(ch)
  {
    ch == BACKSLASH || (ch < 64 && (ASCII_SET >> ch) & 1 == 1)
  }

  // Joining lines

  /** The state of the skip scan at `i`: what a byte-by-byte scan has at the same place. */
  lemma SkipPlain(line: seq<Byte>, i: nat, j: nat)
    requires i <= j <= |line| && !Escaping(line[..i]) && forall k | i <= k < j :: line[k] != BACKSLASH
    ensures !Escaping(line[..j])
  {
    if i < j {
      assert line[..j][|line[..j]| - 1] == line[j - 1];
    }
  }

  lemma EscapingStep(line: seq<Byte>, i: nat)
    requires i < |line|
    ensures Escaping(line[..i + 1]) <==> line[i] == BACKSLASH && !Escaping(line[..i])
  {
    assert line[..i + 1][..i] == line[..i] && line[..i + 1][i] == line[i];
  }

  /** memchr for a backslash among the bytes from `i` up to `end`. */
  method FindBackslash(line: seq<Byte>, i: nat, end: nat) returns (found: bool, k: nat)
    requires i <= end <= |line|
    ensures found ==> i <= k < end && line[k] == BACKSLASH && forall j | i <= j < k :: line[j] != BACKSLASH
    ensures !found ==> forall j | i <= j < end :: line[j] != BACKSLASH
  {
    k := i;
    while k < end
      invariant i <= k <= end && forall j | i <= j < k :: line[j] != BACKSLASH
    {
      if line[k] == BACKSLASH {
        return true, k;
      }
      k := k + 1;
    }
    return false, k;
  }

  /** The scan for an escaped newline, with its skip from one backslash to the next. */
  method ScanContinues(line: seq<Byte>) returns (escape: bool)
    ensures escape <==> Continues(line)
  {
    escape := false;
    if |line| < 2 || line[|line| - 1] != NEWLINE || line[|line| - 2] != BACKSLASH {
      NotContinued(line);
      return;
    }
    var n := |line| - 1;
    var i := 0;
    while i < n
      invariant 0 <= i <= n && (escape <==> Escaping(line[..i]))
      decreases n - i
    {
      EscapingStep(line, i);
      if !escape && line[i] == BACKSLASH {
        escape := true;
      } else if !escape {
        var found, end := FindBackslash(line, i, n);
        SkipPlain(line, i, if found then end else n);
        i := if found then end - 1 else n - 1;
      } else {
        escape := false;
      }
      i := i + 1;
    }
    EscapingIsOdd(line[..n]);
  }

  lemma NotContinued(line: seq<Byte>)
    requires |line| < 2 || line[|line| - 1] != NEWLINE || line[|line| - 2] != BACKSLASH
    ensures !Continues(line)
  {
  }

  // One line

  /** The unread part of the line is as it was. */
  ghost predicate Unread(now: seq<Byte>, s: seq<Byte>, i: nat) {
    |now| == |s| && i <= |s| && forall k | i <= k < |s| :: now[k] == s[k]
  }

  /** myspn. */
  method Spn(line: array<Byte>, i: nat, blank0: bool, ghost s: seq<Byte>) returns (k: nat)
    requires Unread(line[..], s, i)
    ensures k == DepFile.SkipSpace(s, i, blank0)
  {
    k := i;
    var blank := blank0;
    while k < line.Length
      invariant i <= k <= |s| && DepFile.SkipSpace(s, k, blank) == DepFile.SkipSpace(s, i, blank0)
      decreases |s| - k
    {
      if IsBlank(line[k]) {
        k, blank := k + 1, true;
      } else if blank && k + 1 < line.Length && line[k] == BACKSLASH && line[k + 1] == NEWLINE {
        k := k + 2;
      } else {
        return;
      }
    }
  }

  /** setcspn_ascii, eight bytes to a round. */
  method SetCspn(line: array<Byte>, i: nat, ghost s: seq<Byte>) returns (k: nat)
    requires Unread(line[..], s, i) && i < |s| && s[|s| - 1] == NUL
    ensures i <= k < |s| && Special(s[k]) && forall j | i <= j < k :: !Special(s[j])
  {
    k := i;
    while true
      invariant i <= k < |s| && forall j | i <= j < k :: !Special(s[j])
      decreases |s| - k
    {
      var len := k;
      for n := 0 to 8
        invariant k == len + n < |s| && forall j | i <= j < k :: !Special(s[j])
      {
        if InsetAscii(line[k]) {
          return;
        }
        k := k + 1;
      }
    }
  }

  lemma {:induction false} PlainWord(s: seq<Byte>, i: nat, k: nat)
    requires i <= k <= |s| && forall j | i <= j < k :: !Special(s[j])
    ensures WordEnd(s, i) == WordEnd(s, k)
    decreases k - i
  {
    if i < k {
      PlainWord(s, i + 1, k);
    }
  }

  /** mycspn_ascii. */
  method Cspn(line: array<Byte>, i: nat, ghost s: seq<Byte>) returns (e: nat, escapes: bool)
    requires Unread(line[..], s, i) && i < |s| && DepFile.Terminated(s)
    ensures e == WordEnd(s, i) < |s|
    ensures escapes <==> exists j :: i <= j < e && (s[j] == BACKSLASH || s[j] == DOLLAR)
  {
    e, escapes := i, false;
    while true
      invariant i <= e < |s| && WordEnd(s, e) == WordEnd(s, i)
      invariant escapes <==> exists j :: i <= j < e && (s[j] == BACKSLASH || s[j] == DOLLAR)
      decreases |s| - e
    {
      ghost var from := e;
      e := SetCspn(line, e, s);
      PlainWord(s, from, e);
      if (line[e] == BACKSLASH || line[e] == DOLLAR) && line[e + 1] != NUL {
        escapes := true;
        EscapeFits(s, e);
        e := e + 2;
      } else {
        return;
      }
    }
  }

  /** An escape does not reach over the terminator. */
  lemma EscapeFits(s: seq<Byte>, e: nat)
    requires DepFile.Terminated(s) && e + 1 < |s| && s[e + 1] != NUL
    ensures e + 2 < |s|
  {
  }

  function Prefixed(a: seq<Byte>, o: Option<seq<Byte>>): Option<seq<Byte>> {
    match o case None => None case Some(r) => Some(a + r)
  }

  lemma PrefixedTwice(a: seq<Byte>, c: Byte, o: Option<seq<Byte>>)
    ensures Prefixed(a, Prefixed([c], o)) == Prefixed(a + [c], o)
  {
    if o.Some? {
      assert a + ([c] + o.value) == a + [c] + o.value;
    }
  }

  /** Where the byte that stands for the one at `idx` is: at `idx`, or after the escape; none when the escape is bad. */
  function ByteAt(w: seq<Byte>, idx: nat): Option<nat>
    requires idx < |w|
  {
    if w[idx] != BACKSLASH && w[idx] != DOLLAR then Some(idx)
    else if idx + 1 >= |w| || (w[idx] == DOLLAR && w[idx + 1] != DOLLAR) then None
    else Some(idx + 1)
  }

  lemma WordStep(w: seq<Byte>, idx: nat, done: seq<Byte>)
    requires idx < |w|
    ensures match ByteAt(w, idx)
      case None => Unescaped(w[idx..]) == None && Prefixed(done, Unescaped(w[idx..])) == None
      case Some(at) =>
        idx <= at < |w| && Prefixed(done, Unescaped(w[idx..])) == Prefixed(done + [w[at]], Unescaped(w[at + 1..]))
  {
    assert w[idx..][0] == w[idx] && w[idx..][1..] == w[idx + 1..];
    if idx + 1 < |w| {
      assert w[idx..][1] == w[idx + 1] && w[idx..][2..] == w[idx + 2..];
    }
    if ByteAt(w, idx).Some? {
      var at := ByteAt(w, idx).value;
      PrefixedTwice(done, w[at], Unescaped(w[at + 1..]));
    }
  }

  /** The compaction of one word over its own text. */
  method UnescapeWord(line: array<Byte>, start: nat, len: nat) returns (r: Option<nat>)
    requires start + len < line.Length
    modifies line
    ensures r.None? <==> old(Unescaped(line[start..start + len])).None?
    ensures r.Some? ==> r.value <= len && line[start..start + r.value] == old(Unescaped(line[start..start + len])).value
    ensures r.Some? ==> line[start + r.value] == NUL
    ensures forall k | 0 <= k < line.Length && (k < start || k > start + len) :: line[k] == old(line[k])
  {
    hide Unescaped, Prefixed;
    ghost var w := line[start..start + len];
    ghost var done: seq<Byte> := [];
    var cp, idx := 0, 0;
    assert w[0..] == w;
    PrefixedNone(Unescaped(w));
    while idx < len
      invariant 0 <= cp <= idx <= len && done == line[start..start + cp]
      invariant forall k | idx <= k < len :: line[start + k] == w[k]
      invariant Prefixed(done, Unescaped(w[idx..])) == Unescaped(w)
      invariant forall k | 0 <= k < line.Length && (k < start || k > start + len) :: line[k] == old(line[k])
    {
      WordStep(w, idx, done);
      var at := idx;
      if line[start + idx] == BACKSLASH || line[start + idx] == DOLLAR {
        if idx + 1 >= len {
          return None;
        }
        if line[start + idx] == DOLLAR && line[start + idx + 1] != DOLLAR {
          return None;
        }
        at := idx + 1;
      }
      line[start + cp] := line[start + at];
      assert line[start..start + cp + 1] == done + [w[at]];
      done, cp, idx := done + [w[at]], cp + 1, at + 1;
    }
    WordEnds(w, done);
    line[start + cp] := NUL;
    assert line[start..start + cp] == done;
    r := Some(cp);
  }

  lemma WordEnds(w: seq<Byte>, done: seq<Byte>)
    ensures Prefixed(done, Unescaped(w[|w|..])) == Some(done)
  {
    assert w[|w|..] == [] && done + [] == done;
  }

  lemma PrefixedNone(o: Option<seq<Byte>>)
    ensures Prefixed([], o) == o
  {
    if o.Some? {
      assert [] + o.value == o.value;
    }
  }

  lemma {:induction false} NothingEscaped(w: seq<Byte>)
    requires forall k | 0 <= k < |w| :: w[k] != BACKSLASH && w[k] != DOLLAR
    ensures Unescaped(w) == Some(w)
    decreases |w|
  {
    if w != [] {
      NothingEscaped(w[1..]);
      assert [w[0]] + w[1..] == w;
    }
  }

  /** The string that a callback is given: its bytes end with a terminator on the line. */
  method HandOver(line: array<Byte>, start: nat, len: nat) returns (w: seq<Byte>)
    requires start + len < line.Length && line[start + len] == NUL
    ensures w == line[start..start + len]
  {
    w := line[start..start + len];
  }

  /** The word from `start` up to `e`, cut off and unescaped where it stands; a blank is left after it. */
  method TakeWord(line: array<Byte>, start: nat, e: nat, escapes: bool, ghost s: seq<Byte>)
    returns (r: Option<seq<Byte>>)
    requires Unread(line[..], s, start) && start <= e < |s|
    requires !escapes ==> forall j | start <= j < e :: s[j] != BACKSLASH && s[j] != DOLLAR
    modifies line
    ensures r == Unescaped(s[start..e]) && Unread(line[..], s, e + 1)
    ensures r.Some? ==> line[e] == SPACE
  {
    hide Unescaped;
    line[e] := NUL;
    assert line[start..e] == s[start..e];
    var len2 := e - start;
    if escapes {
      var n := UnescapeWord(line, start, e - start);
      if n == None {
        return None;
      }
      len2 := n.value;
    } else {
      NothingEscaped(s[start..e]);
    }
    var w := HandOver(line, start, len2);
    r := Some(w);
    line[e] := SPACE;
  }

  lemma SpaceFirst(s: seq<Byte>, e: nat, now: seq<Byte>)
    requires e < |s| && Unread(now, s, e + 1) && now[e] == SPACE
    ensures DepFile.SkipSpace(now, e, false) == DepFile.SkipSpace(s, e + 1, true)
  {
    SkipSame(now, s, e + 1, true);
  }

  lemma {:induction false} SkipSame(a: seq<Byte>, s: seq<Byte>, i: nat, blank: bool)
    requires Unread(a, s, i)
    ensures DepFile.SkipSpace(a, i, blank) == DepFile.SkipSpace(s, i, blank)
    decreases |s| - i
  {
    if i < |s| && IsBlank(s[i]) {
      SkipSame(a, s, i + 1, true);
    } else if blank && i + 1 < |s| && s[i] == BACKSLASH && s[i + 1] == NEWLINE {
      SkipSame(a, s, i + 2, true);
    }
  }

  /** What is left of the line gives the rest of the tokens. */
  ghost predicate Rest(whole: Outcome, done: seq<Token>, s: seq<Byte>, i: nat, colon: bool)
    requires i <= |s|
  {
    whole == Before(done, Words(s, i, colon))
  }

  lemma RestStep(whole: Outcome, done: seq<Token>, s: seq<Byte>, i: nat, colon: bool, w: seq<Byte>)
    requires i <= |s| && Rest(whole, done, s, i, colon) && WordEnd(s, i) < |s|
    requires Unescaped(s[i..WordEnd(s, i)]) == Some(w)
    requires var c := s[WordEnd(s, i)]; if colon then c != COLON else c != NUL && c != NEWLINE
    ensures var e := WordEnd(s, i);
      var t := if e == i then done else done + [if colon then Dep(w) else Target(w)];
      if s[e] == NUL || s[e] == NEWLINE then whole == Tokens(t)
      else Rest(whole, t, s, DepFile.SkipSpace(s, e + 1, true), colon || s[e] == COLON)
  {
    hide Unescaped, DepFile.SkipSpace, WordEnd;
    var e := WordEnd(s, i);
    var t := if e == i then [] else [if colon then Dep(w) else Target(w)];
    assert done + [] == done;
    if s[e] != NUL && s[e] != NEWLINE {
      var o := Words(s, DepFile.SkipSpace(s, e + 1, true), colon || s[e] == COLON);
      if o.Tokens? {
        assert done + (t + o.tokens) == done + t + o.tokens;
      }
    }
  }

  lemma RestBad(whole: Outcome, done: seq<Token>, s: seq<Byte>, i: nat, colon: bool)
    requires i <= |s| && Rest(whole, done, s, i, colon) && WordEnd(s, i) < |s|
    requires var e := WordEnd(s, i);
      Unescaped(s[i..e]) == None || (if colon then s[e] == COLON else s[e] == NUL || s[e] == NEWLINE)
    ensures whole == Bad
  {
    hide Unescaped, DepFile.SkipSpace, WordEnd;
  }

  /** The position after a word is still on the line. */
  lemma {:induction false} SkipStays(s: seq<Byte>, i: nat, blank: bool)
    requires DepFile.Terminated(s) && i < |s|
    ensures DepFile.SkipSpace(s, i, blank) < |s|
    decreases |s| - i
  {
    if IsBlank(s[i]) {
      SkipStays(s, i + 1, true);
    } else if blank && i + 1 < |s| && s[i] == BACKSLASH && s[i + 1] == NEWLINE {
      SkipStays(s, i + 2, true);
    }
  }

  /** The loop over the targets, up to the colon. */
  method Targets(line: array<Byte>, from: nat, ghost s: seq<Byte>, ghost whole: Outcome)
      returns (ok: bool, tokens: seq<Token>, start: nat)
    requires Unread(line[..], s, from) && from < |s| && DepFile.Terminated(s) && Rest(whole, [], s, from, false)
    modifies line
    ensures !ok ==> whole == Bad
    ensures ok ==> Unread(line[..], s, start) && start < |s| && Rest(whole, tokens, s, start, true)
  {
    hide Rest, Unescaped, DepFile.SkipSpace, WordEnd;
    tokens, start := [], from;
    var colon := false;
    while !colon
      invariant Unread(line[..], s, start) && start < |s| && Rest(whole, tokens, s, start, colon)
      decreases if colon then 0 else 1, |s| - start
    {
      var e, escapes := Cspn(line, start, s);
      if line[e] == NUL || line[e] == NEWLINE {
        RestBad(whole, tokens, s, start, false);
        return false, tokens, start;
      }
      colon := line[e] == COLON;
      var w := TakeWord(line, start, e, escapes, s);
      if w == None {
        RestBad(whole, tokens, s, start, false);
        return false, tokens, start;
      }
      RestStep(whole, tokens, s, start, false, w.value);
      if e != start {
        tokens := tokens + [Target(w.value)];
      }
      start := AfterWord(line, e, s);
    }
    ok := true;
  }

  /** Past the blank that ended a word. */
  method AfterWord(line: array<Byte>, e: nat, ghost s: seq<Byte>) returns (start: nat)
    requires e + 1 < |s| && DepFile.Terminated(s) && Unread(line[..], s, e + 1) && line[e] == SPACE
    ensures start == DepFile.SkipSpace(s, e + 1, true) && e < start < |s| && Unread(line[..], s, start)
  {
    SpaceFirst(s, e, line[..]);
    SkipStays(s, e + 1, true);
    start := Spn(line, e, false, line[..]);
  }

  /** The loop over the dependencies, up to the end of the line. */
  method Deps(line: array<Byte>, from: nat, targets: seq<Token>, ghost s: seq<Byte>, ghost whole: Outcome)
    returns (o: Outcome)
    requires Unread(line[..], s, from) && from < |s| && DepFile.Terminated(s) && Rest(whole, targets, s, from, true)
    modifies line
    ensures o == whole
  {
    hide Rest, Unescaped, DepFile.SkipSpace, WordEnd;
    var tokens, start := targets, from;
    while true
      invariant Unread(line[..], s, start) && start < |s| && Rest(whole, tokens, s, start, true)
      decreases |s| - start
    {
      var e, escapes := Cspn(line, start, s);
      if line[e] == COLON {
        RestBad(whole, tokens, s, start, true);
        return Bad;
      }
      var end := line[e] == NEWLINE || line[e] == NUL;
      var w := TakeWord(line, start, e, escapes, s);
      if w == None {
        RestBad(whole, tokens, s, start, true);
        return Bad;
      }
      RestStep(whole, tokens, s, start, true, w.value);
      if e != start {
        tokens := tokens + [Dep(w.value)];
      }
      if end {
        return Tokens(tokens);
      }
      start := AfterWord(line, e, s);
    }
  }

  /** The blank skip after the last dependency starts by overwriting what ended the line.  It stays on the line exactly
      when that was a newline; at the end of a last line without one it overwrites the terminator and finds no other. */
  lemma LastSkip(s: seq<Byte>, e: nat)
    requires DepFile.Terminated(s) && e < |s| && (s[e] == NEWLINE || s[e] == NUL)
    ensures DepFile.SkipSpace(s[e := SPACE], e, false) < |s| <==> s[e] == NEWLINE
  {
    var now := s[e := SPACE];
    if s[e] == NEWLINE {
      assert now[|s| - 1] == NUL && now[..|s| - 1] == s[..|s| - 1][e := SPACE];
      SkipStays(now, e, false);
    }
  }

  /** handle_line: the tokens of the line, whose words are cut off and unescaped in place. */
  method HandleLine(line: array<Byte>) returns (o: Outcome)
    requires DepFile.Terminated(line[..])
    modifies line
    ensures o == old(LineTokens(line[..]))
  {
    hide Rest, Words, DepFile.SkipSpace;
    ghost var s := line[..];
    var start := Spn(line, 0, false, s);
    SkipStays(s, 0, false);
    if line[start] == NUL || line[start] == NEWLINE {
      return Tokens([]);
    }
    ghost var whole := LineTokens(s);
    Begin(whole, s, start);
    var ok, tokens, at := Targets(line, start, s, whole);
    if !ok {
      return Bad;
    }
    o := Deps(line, at, tokens, s, whole);
  }

  lemma Begin(whole: Outcome, s: seq<Byte>, start: nat)
    requires start <= |s| && whole == Words(s, start, false)
    ensures Rest(whole, [], s, start, false)
  {
    if whole.Tokens? {
      assert [] + whole.tokens == whole.tokens;
    }
  }

  // Whole files

  lemma LineStep(f: seq<Byte>, i: nat)
    requires i < |f|
    ensures FirstLine(f[i..]) == if f[i] == NEWLINE || i + 1 == |f| then 1 else 1 + FirstLine(f[i + 1..])
  {
    assert f[i..][1..] == f[i + 1..];
  }

  /** mygetline: the end of the physical line that starts at `pos`. */
  method LineEnd(f: seq<Byte>, pos: nat) returns (end: nat)
    requires pos < |f|
    ensures end == pos + FirstLine(f[pos..]) && pos < end <= |f|
  {
    hide FirstLine;
    end := pos;
    while true
      invariant pos <= end < |f| && FirstLine(f[pos..]) == end - pos + FirstLine(f[end..])
      decreases |f| - end
    {
      LineStep(f, end);
      end := end + 1;
      if f[end - 1] == NEWLINE || end == |f| {
        return;
      }
    }
  }

  lemma JoinFirst(text: seq<Byte>)
    requires text != []
    ensures var k := FirstLine(text);
      LogicalLine(text) == if !Continues(text[..k]) then Some(k)
                           else if k == |text| then None
                           else match LogicalLine(text[k..]) case None => None case Some(m) => Some(k + m)
  {
    hide Continues, FirstLine;
  }

  /** The lines joined so far, `pos..end`, lack what the rest of the text joins to them. */
  lemma JoinStep(f: seq<Byte>, end: nat)
    requires end < |f|
    ensures var next := end + FirstLine(f[end..]);
      LogicalLine(f[end..]) == if !Continues(f[end..next]) then Some(next - end)
                               else if next == |f| then None
                               else match LogicalLine(f[next..]) case None => None case Some(m) => Some(next - end + m)
  {
    hide Continues, FirstLine, LogicalLine;
    var k := FirstLine(f[end..]);
    JoinFirst(f[end..]);
    SliceAgain(f, end, k);
  }

  /** The logical line at `pos` goes on with what the one at `from` would be. */
  ghost predicate Joins(f: seq<Byte>, pos: nat, from: nat)
    requires pos <= from < |f|
  {
    LogicalLine(f[pos..]) == match LogicalLine(f[from..]) case None => None case Some(m) => Some(from - pos + m)
  }

  lemma JoinsFirst(f: seq<Byte>, pos: nat)
    requires pos < |f|
    ensures Joins(f, pos, pos)
  {
  }

  /** One more physical line, `from..end`, has been read. */
  lemma JoinsMore(f: seq<Byte>, pos: nat, from: nat, end: nat)
    requires pos <= from < end <= |f| && end == from + FirstLine(f[from..]) && Joins(f, pos, from)
    ensures !Continues(f[from..end]) ==> LogicalLine(f[pos..]) == Some(end - pos)
    ensures Continues(f[from..end]) && end == |f| ==> LogicalLine(f[pos..]) == None
    ensures Continues(f[from..end]) && end < |f| ==> Joins(f, pos, end)
  {
    hide Continues, FirstLine, LogicalLine;
    JoinStep(f, from);
  }

  /** One physical line and those joined to it. */
  method ReadLogical(f: seq<Byte>, pos: nat) returns (ok: bool, line: seq<Byte>)
    requires pos < |f|
    ensures ok ==> LogicalLine(f[pos..]) == Some(|line|) && 0 < |line| <= |f| - pos && line == f[pos..pos + |line|]
    ensures !ok ==> LogicalLine(f[pos..]) == None
  {
    hide LogicalLine, Continues, Joins, FirstLine;
    var from := pos;
    var end := LineEnd(f, from);
    line := f[pos..end];
    JoinsFirst(f, pos);
    while true
      invariant pos <= from < end <= |f| && line == f[pos..end] && end == from + FirstLine(f[from..])
      invariant Joins(f, pos, from)
      decreases |f| - from
    {
      JoinsMore(f, pos, from, end);
      var escape := ScanContinues(f[from..end]);
      if !escape {
        return true, line;
      }
      if end == |f| {
        return false, line;
      }
      from := end;
      end := LineEnd(f, from);
      line := Extend(line, f, pos, from, end);
    }
  }

  /** The copy of the next physical line behind the ones already joined. */
  method Extend(line: seq<Byte>, f: seq<Byte>, pos: nat, from: nat, end: nat) returns (r: seq<Byte>)
    requires pos <= from <= end <= |f| && line == f[pos..from]
    ensures r == f[pos..end]
  {
    r := line + f[from..end];
  }

  lemma FileStep(f: seq<Byte>, pos: nat, n: nat)
    requires pos < |f| && pos + n <= |f| && n > 0 && LogicalLine(f[pos..]) == Some(n)
    ensures FileTokens(f[pos..]) ==
      match LineTokens(f[pos..pos + n] + [NUL])
      case Bad => None
      case Tokens(t) => match FileTokens(f[pos + n..]) case None => None case Some(rest) => Some([t] + rest)
  {
    SliceAgain(f, pos, n);
  }

  /** The tokens of the lines so far, with those of the rest. */
  ghost predicate SoFar(f: seq<Byte>, done: seq<seq<Token>>, pos: nat)
    requires pos <= |f|
  {
    FileTokens(f) == match FileTokens(f[pos..]) case None => None case Some(rest) => Some(done + rest)
  }

  /** incyymineparse: the tokens of every logical line, in order, or an error. */
  method Parse(f: seq<Byte>) returns (ok: bool, lines: seq<seq<Token>>)
    requires NUL !in f
    ensures FileTokens(f) == if ok then Some(lines) else None
  {
    hide LineTokens, LogicalLine, SoFar;
    var pos := 0;
    lines := [];
    FileBegins(f);
    while pos < |f|
      invariant 0 <= pos <= |f| && SoFar(f, lines, pos)
      decreases |f| - pos
    {
      var joined, text := ReadLogical(f, pos);
      if !joined {
        FileBroken(f, lines, pos);
        return false, lines;
      }
      var n := |text|;
      var held := text + [NUL];
      var line := new Byte[n + 1](i requires 0 <= i < |held| => held[i]);
      assert line[..] == held;
      assert NUL !in text by {
        assert forall k | 0 <= k < n :: text[k] == f[pos + k];
      }
      assert held[..n] == text;
      var o := HandleLine(line);
      FileAdvances(f, lines, pos, n, o);
      if o == Bad {
        return false, lines;
      }
      lines, pos := lines + [o.tokens], pos + n;
    }
    FileEnds(f, lines);
    return true, lines;
  }

  lemma FileBegins(f: seq<Byte>)
    ensures SoFar(f, [], 0)
  {
    assert f[0..] == f;
    if FileTokens(f).Some? {
      assert [] + FileTokens(f).value == FileTokens(f).value;
    }
  }

  lemma FileBroken(f: seq<Byte>, done: seq<seq<Token>>, pos: nat)
    requires pos < |f| && SoFar(f, done, pos) && LogicalLine(f[pos..]) == None
    ensures FileTokens(f) == None
  {
  }

  lemma FileAdvances(f: seq<Byte>, done: seq<seq<Token>>, pos: nat, n: nat, o: Outcome)
    requires pos < |f| && pos + n <= |f| && n > 0 && LogicalLine(f[pos..]) == Some(n) && SoFar(f, done, pos)
    requires o == LineTokens(f[pos..pos + n] + [NUL])
    ensures o == Bad ==> FileTokens(f) == None
    ensures o.Tokens? ==> SoFar(f, done + [o.tokens], pos + n)
  {
    hide LineTokens, LogicalLine, FileTokens;
    FileStep(f, pos, n);
    if o.Tokens? && FileTokens(f[pos + n..]).Some? {
      var rest := FileTokens(f[pos + n..]).value;
      assert done + ([o.tokens] + rest) == done + [o.tokens] + rest;
    }
  }

  lemma FileEnds(f: seq<Byte>, done: seq<seq<Token>>)
    requires SoFar(f, done, |f|)
    ensures FileTokens(f) == Some(done)
  {
    assert f[|f|..] == [] && done + [] == done;
  }
}
