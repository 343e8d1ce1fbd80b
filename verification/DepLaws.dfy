/** What a line of a dependency file means for every way to spell its words, told from the character codes. */
module DepLaws {
  import opened Options
  import opened Bytes
  import opened DepFile

  /** `e` spells the character `c`: a backslash before any character, two dollar signs for one, or an ordinary character
      as it is. */
  predicate SpellsOne(e: seq<Byte>, c: Byte) {
    || (|e| == 2 && e[0] == 92 && e[1] == c && c != 0)
    || (e == [36, 36] && c == 36)
    || (e == [c] && c !in {0, 9, 10, 32, 36, 58, 92})
  }

  /** The word `w` spells `name`. */
  ghost predicate Spells(w: seq<Byte>, name: seq<Byte>)
    decreases |name|
  {
    if name == [] then w == []
    else exists k :: 1 <= k <= 2 && k <= |w| && SpellsOne(w[..k], name[0]) && Spells(w[k..], name[1..])
  }

  /** A word spelled in any way ends where it should, and is unescaped to its name. */
  lemma {:induction false} SpelledWord(s: seq<Byte>, i: nat, w: seq<Byte>, name: seq<Byte>, rest: seq<Byte>)
    requires i <= |s| && s[i..] == w + rest && Spells(w, name) && rest != [] && rest[0] in {0, 9, 10, 32, 58}
    ensures WordEnd(s, i) == i + |w| <= |s| && s[i..i + |w|] == w && s[i + |w|..] == rest
    ensures Unescaped(w) == Some(name)
    decreases |name|
  {
    hide WordEnd, Unescaped, SpellsOne, Spells;
    AfterPrefix(s, i, w, rest);
    if name == [] {
      NothingSpelled(s, i, w, name, rest);
    } else {
      var e, more := FirstSpelled(w, name);
      Regroup(e, more, rest);
      AfterPrefix(s, i, e, more + rest);
      OneCharacter(s, i, e, name[0]);
      SpelledWord(s, i + |e|, more, name[1..], rest);
      OneUnescaped(e, name[0], more);
      WholeName(name);
    }
  }

  lemma FirstSpelled(w: seq<Byte>, name: seq<Byte>) returns (e: seq<Byte>, more: seq<Byte>)
    requires Spells(w, name) && name != []
    ensures w == e + more && SpellsOne(e, name[0]) && Spells(more, name[1..])
  {
    var k :| 1 <= k <= 2 && k <= |w| && SpellsOne(w[..k], name[0]) && Spells(w[k..], name[1..]);
    e, more := w[..k], w[k..];
  }

  lemma NothingSpelled(s: seq<Byte>, i: nat, w: seq<Byte>, name: seq<Byte>, rest: seq<Byte>)
    requires i <= |s| && s[i..] == w + rest && Spells(w, name) && name == []
    requires rest != [] && rest[0] in {0, 9, 10, 32, 58}
    ensures w == [] && WordEnd(s, i) == i && Unescaped(w) == Some(name)
  {
    assert s[i] == s[i..][0];
  }

  lemma WholeName(name: seq<Byte>)
    requires name != []
    ensures [name[0]] + name[1..] == name
  {
  }

  lemma OneCharacter(s: seq<Byte>, i: nat, e: seq<Byte>, c: Byte)
    requires SpellsOne(e, c) && i + |e| <= |s| && s[i..i + |e|] == e
    ensures WordEnd(s, i) == WordEnd(s, i + |e|)
  {
    assert s[i] == s[i..i + |e|][0];
    if |e| == 2 {
      assert s[i + 1] == s[i..i + |e|][1];
    }
  }

  lemma OneUnescaped(e: seq<Byte>, c: Byte, more: seq<Byte>)
    requires SpellsOne(e, c)
    ensures Unescaped(e + more) == match Unescaped(more) case None => None case Some(r) => Some([c] + r)
  {
    assert (e + more)[|e|..] == more && (e + more)[..|e|] == e;
  }

  /** A dollar sign before anything but another one, and a backslash or dollar sign at the end, make a word fail,
      whatever was spelled before. */
  lemma {:induction false} BadWord(w: seq<Byte>, name: seq<Byte>, bad: seq<Byte>)
    requires Spells(w, name) && bad != []
    requires (bad[0] == 36 && (|bad| == 1 || bad[1] != 36)) || bad == [92]
    ensures Unescaped(w + bad) == None
    decreases |name|
  {
    if name == [] {
      assert w + bad == bad;
    } else {
      var e, more := FirstSpelled(w, name);
      BadWord(more, name[1..], bad);
      OneUnescaped(e, name[0], more + bad);
      Regroup(e, more, bad);
    }
  }

  /** Spaces and tabs are passed over, to the first other character. */
  lemma {:induction false} BlanksSkipped(s: seq<Byte>, i: nat, b: seq<Byte>, rest: seq<Byte>, blank: bool)
    requires i <= |s| && s[i..] == b + rest && Blanks(b) && rest != [] && rest[0] != 32 && rest[0] != 9
    requires (blank || b != []) && |rest| > 1 && rest[0] == 92 ==> rest[1] != 10
    ensures DepFile.SkipSpace(s, i, blank) == i + |b| <= |s| && s[i + |b|..] == rest
    decreases |b|
  {
    AfterPrefix(s, i, b, rest);
    if b == [] {
      assert s[i] == s[i..][0];
      assert |rest| > 1 ==> s[i + 1] == s[i..][1];
    } else {
      assert s[i] == s[i..][0] == b[0];
      assert s[i + 1..] == b[1..] + rest;
      BlanksSkipped(s, i + 1, b[1..], rest, true);
    }
  }

  /** After a blank, a backslash with a newline counts as a blank. */
  lemma JointSkipped(s: seq<Byte>, i: nat)
    requires i + 1 < |s| && s[i] == 92 && s[i + 1] == 10
    ensures DepFile.SkipSpace(s, i, true) == DepFile.SkipSpace(s, i + 2, true)
    ensures DepFile.SkipSpace(s, i, false) == i
  {
  }

  /** One word of a line, spelled in any way.  Before the colon a word is a target, and the line must not end; after
      it a word is a dependency, and there must be no second colon.  Between two separators there need not be a word.
      */
  lemma OneWord(s: seq<Byte>, i: nat, colon: bool, w: seq<Byte>, name: seq<Byte>, rest: seq<Byte>)
    requires i <= |s| && s[i..] == w + rest && Spells(w, name) && rest != [] && rest[0] in {0, 9, 10, 32, 58}
    ensures var sep, e := rest[0], i + |w|;
      var t := if name == [] then [] else [if colon then Dep(name) else Target(name)];
      && e < |s|
      && (sep == 32 || sep == 9 ==>
            Words(s, i, colon) == Before(t, Words(s, DepFile.SkipSpace(s, e + 1, true), colon)))
      && (sep == 58 && !colon ==> Words(s, i, colon) == Before(t, Words(s, DepFile.SkipSpace(s, e + 1, true), true)))
      && (sep == 58 && colon ==> Words(s, i, colon) == Bad)
      && (sep == 10 || sep == 0 ==> Words(s, i, colon) == if colon then Tokens(t) else Bad)
  {
    hide WordEnd, Unescaped, DepFile.SkipSpace, SpellsOne;
    SpelledWord(s, i, w, name, rest);
    AfterPrefix(s, i, w, rest);
    assert s[i + |w|] == s[i + |w|..][0];
    assert name == [] <==> w == [];
  }

  /** A word that cannot be unescaped makes the line fail. */
  lemma BadWordFails(s: seq<Byte>, i: nat, colon: bool)
    requires i <= |s| && Unescaped(s[i..WordEnd(s, i)]) == None
    ensures Words(s, i, colon) == Bad
  {
    hide WordEnd, Unescaped, DepFile.SkipSpace;
  }

  /** A line of blanks alone, up to its newline or its end, has no rule. */
  lemma BlankLine(s: seq<Byte>, b: seq<Byte>, rest: seq<Byte>)
    requires s == b + rest && Blanks(b) && rest != [] && (rest[0] == 0 || rest[0] == 10)
    ensures LineTokens(s) == Tokens([])
  {
    hide Words;
    assert s[0..] == s;
    BlanksSkipped(s, 0, b, rest, false);
    assert s[|b|] == s[|b|..][0];
  }

  /** A rule with a target and a dependency, spelled and spaced in any way, up to its newline or its end. */
  lemma SpelledRule(s: seq<Byte>, b0: seq<Byte>, t: seq<Byte>, target: seq<Byte>, b1: seq<Byte>, d: seq<Byte>,
                    dep: seq<Byte>, end: seq<Byte>)
    requires s[0..] == b0 + (t + ([COLON] + (b1 + (d + end))))
    requires Blanks(b0) && Blanks(b1) && Spells(t, target) && Spells(d, dep) && target != [] && dep != []
    requires !(|t| > 1 && t[0] == 92 && t[1] == 10) && !(|d| > 1 && d[0] == 92 && d[1] == 10)
    requires end != [] && (end[0] == 0 || end[0] == 10)
    ensures LineTokens(s) == Tokens([Target(target), Dep(dep)])
  {
    hide Words, DepFile.SkipSpace, Spells, LineTokens, Blanks, Before;
    var tail := b1 + (d + end);
    FirstTarget(s, b0, t, target, tail);
    LastDependency(s, |b0| + |t| + 1, b1, d, dep, end);
    TargetFirst(target, dep);
  }

  /** Blanks, a target and the colon. */
  lemma FirstTarget(s: seq<Byte>, b: seq<Byte>, t: seq<Byte>, target: seq<Byte>, tail: seq<Byte>)
    requires s[0..] == b + (t + ([COLON] + tail)) && Blanks(b) && Spells(t, target) && target != []
    requires !(|t| > 1 && t[0] == 92 && t[1] == 10)
    ensures |b| + |t| + 1 <= |s| && s[|b| + |t| + 1..] == tail
    ensures LineTokens(s) == Before([Target(target)], Words(s, DepFile.SkipSpace(s, |b| + |t| + 1, true), true))
  {
    hide Words, DepFile.SkipSpace, Spells, LineTokens, Blanks, Begins, Before;
    var line := t + ([COLON] + tail);
    SpelledStart(t, target, [COLON] + tail);
    SkippedTo(s, 0, b, line, false);
    LineStarts(s, |b|, line);
    TargetAndColon(s, |b|, t, target, tail);
  }

  lemma TargetAndColon(s: seq<Byte>, i: nat, t: seq<Byte>, target: seq<Byte>, tail: seq<Byte>)
    requires i <= |s| && s[i..] == t + ([COLON] + tail) && Spells(t, target) && target != []
    ensures var e := i + |t| + 1;
      e <= |s| && s[e..] == tail &&
      Words(s, i, false) == Before([Target(target)], Words(s, DepFile.SkipSpace(s, e, true), true))
  {
    hide Words, DepFile.SkipSpace, Spells, Before;
    OneWord(s, i, false, t, target, [COLON] + tail);
    AfterPrefix(s, i, t, [COLON] + tail);
    AfterPrefix(s, i + |t|, [COLON], tail);
  }

  lemma TargetFirst(target: seq<Byte>, dep: seq<Byte>)
    ensures Before([Target(target)], Tokens([Dep(dep)])) == Tokens([Target(target), Dep(dep)])
  {
  }

  /** A text that begins with a character of a word. */
  predicate Begins(x: seq<Byte>) {
    x != [] && x[0] !in {0, 9, 10, 32} && (|x| > 1 && x[0] == 92 ==> x[1] != 10)
  }

  lemma SkippedTo(s: seq<Byte>, i: nat, b: seq<Byte>, rest: seq<Byte>, blank: bool)
    requires i <= |s| && s[i..] == b + rest && Blanks(b) && Begins(rest)
    ensures DepFile.SkipSpace(s, i, blank) == i + |b| <= |s| && s[i + |b|..] == rest
  {
    BlanksSkipped(s, i, b, rest, blank);
  }

  lemma LineStarts(s: seq<Byte>, i: nat, line: seq<Byte>)
    requires i <= |s| && s[i..] == line && Begins(line)
    requires DepFile.SkipSpace(s, 0, false) == i
    ensures LineTokens(s) == Words(s, i, false)
  {
    assert s[i] == line[0];
  }

  /** Blanks, one dependency and the end of the line. */
  lemma LastDependency(s: seq<Byte>, i: nat, b: seq<Byte>, d: seq<Byte>, dep: seq<Byte>, end: seq<Byte>)
    requires i <= |s| && s[i..] == b + (d + end) && Blanks(b) && Spells(d, dep) && dep != []
    requires !(|d| > 1 && d[0] == 92 && d[1] == 10) && end != [] && (end[0] == 0 || end[0] == 10)
    ensures Words(s, DepFile.SkipSpace(s, i, true), true) == Tokens([Dep(dep)])
  {
    hide Words, DepFile.SkipSpace, Spells, Blanks, Begins;
    var rest := d + end;
    SpelledStart(d, dep, end);
    SkippedTo(s, i, b, rest, true);
    DependencyAndEnd(s, i + |b|, d, dep, end);
  }

  lemma DependencyAndEnd(s: seq<Byte>, i: nat, d: seq<Byte>, dep: seq<Byte>, end: seq<Byte>)
    requires i <= |s| && s[i..] == d + end && Spells(d, dep) && dep != [] && end != [] && (end[0] == 0 || end[0] == 10)
    ensures Words(s, i, true) == Tokens([Dep(dep)])
  {
    hide Words, DepFile.SkipSpace, Spells, Before;
    OneWord(s, i, true, d, dep, end);
  }

  /** A spelled word begins with neither a blank nor NUL, and with no joint unless the name does. */
  lemma SpelledStart(w: seq<Byte>, name: seq<Byte>, rest: seq<Byte>)
    requires Spells(w, name) && name != [] && rest != [] && !(|w| > 1 && w[0] == 92 && w[1] == 10)
    ensures Begins(w + rest)
  {
    var e, more := FirstSpelled(w, name);
    var x := w + rest;
    assert w[0] == e[0] && x[0] == w[0];
    assert |w| > 1 ==> x[1] == w[1];
  }

  // Logical lines

  /** A line that ends with `k` backslashes and a newline. */
  ghost predicate EndsWith(line: seq<Byte>, k: nat) {
    && |line| > k
    && line[|line| - 1] == 10
    && 10 !in line[..|line| - 1]
    && (forall j | |line| - 1 - k <= j < |line| - 1 :: line[j] == 92)
    && (|line| > k + 1 ==> line[|line| - 2 - k] != 92)
  }

  /** A line goes on exactly when it ends with an odd number of backslashes and a newline. */
  lemma ContinuesExactly(line: seq<Byte>, k: nat)
    requires EndsWith(line, k)
    ensures Continues(line) <==> k % 2 == 1
  {
    TrailingRun(line[..|line| - 1], k);
  }

  lemma {:induction false} TrailingRun(s: seq<Byte>, k: nat)
    requires k <= |s| && (forall j | |s| - k <= j < |s| :: s[j] == 92) && (|s| > k ==> s[|s| - 1 - k] != 92)
    ensures Trailing(s) == k
    decreases |s|
  {
    if k > 0 {
      TrailingRun(s[..|s| - 1], k - 1);
    }
  }

  function Together(lines: seq<seq<Byte>>): seq<Byte> {
    if lines == [] then [] else lines[0] + Together(lines[1..])
  }

  /** A line that ends with an odd number of backslashes. */
  ghost predicate Odd(line: seq<Byte>) {
    exists k: nat :: EndsWith(line, k) && k % 2 == 1
  }

  ghost predicate AllGoOn(lines: seq<seq<Byte>>) {
    forall i | 0 <= i < |lines| :: Odd(lines[i])
  }

  lemma FirstGoesOn(lines: seq<seq<Byte>>, rest: seq<Byte>)
    requires lines != [] && AllGoOn(lines)
    ensures var text := Together(lines) + rest;
      lines[0] != [] && FirstLine(text) == |lines[0]| && text == lines[0] + (Together(lines[1..]) + rest) &&
      Continues(lines[0]) && AllGoOn(lines[1..])
  {
    hide Continues;
    assert Odd(lines[0]);
    var k: nat :| EndsWith(lines[0], k) && k % 2 == 1;
    ContinuesExactly(lines[0], k);
    Regroup(lines[0], Together(lines[1..]), rest);
    FirstIs(lines[0], Together(lines[1..]) + rest);
  }

  lemma {:induction false} FirstIs(line: seq<Byte>, rest: seq<Byte>)
    requires line != [] && line[|line| - 1] == 10 && 10 !in line[..|line| - 1]
    ensures FirstLine(line + rest) == |line|
    decreases |line|
  {
    var text := line + rest;
    assert text[0] == line[0];
    if |line| > 1 {
      assert line[0] == line[..|line| - 1][0];
      assert text[1..] == line[1..] + rest;
      assert line[1..][..|line| - 2] == line[..|line| - 1][1..];
      FirstIs(line[1..], rest);
    }
  }

  lemma {:induction false} NoNewline(text: seq<Byte>)
    requires 10 !in text
    ensures FirstLine(text) == |text|
    decreases |text|
  {
    if text != [] {
      NoNewline(text[1..]);
    }
  }

  /** A line that does not go on, whatever follows it; the last line may end without a newline. */
  ghost predicate LastOne(last: seq<Byte>, rest: seq<Byte>) {
    last != [] && ((exists k: nat :: EndsWith(last, k) && k % 2 == 0) || (10 !in last && rest == []))
  }

  /** Lines that go on are read together with the first one that does not. */
  lemma {:induction false} JoinedLines(lines: seq<seq<Byte>>, last: seq<Byte>, rest: seq<Byte>)
    requires AllGoOn(lines) && LastOne(last, rest)
    ensures Together(lines) + (last + rest) != []
    ensures LogicalLine(Together(lines) + (last + rest)) == Some(|Together(lines)| + |last|)
    decreases |lines|
  {
    hide LogicalLine, LastOne, AllGoOn, FirstLine, Continues;
    if lines == [] {
      assert Together(lines) + (last + rest) == last + rest;
      LastLine(last, rest);
    } else {
      FirstGoesOn(lines, last + rest);
      JoinedLines(lines[1..], last, rest);
      LogicalStep(lines[0], Together(lines[1..]) + (last + rest));
    }
  }

  lemma LogicalStep(line: seq<Byte>, more: seq<Byte>)
    requires line != [] && more != [] && FirstLine(line + more) == |line| && Continues(line)
    ensures LogicalLine(line + more) == match LogicalLine(more) case None => None case Some(n) => Some(|line| + n)
  {
    hide Continues, FirstLine;
    assert (line + more)[..|line|] == line && (line + more)[|line|..] == more;
  }

  lemma LastLine(last: seq<Byte>, rest: seq<Byte>)
    requires LastOne(last, rest)
    ensures last != [] && LogicalLine(last + rest) == Some(|last|)
  {
    hide FirstLine, EndsWith;
    assert (last + rest)[..|last|] == last;
    if k: nat :| EndsWith(last, k) && k % 2 == 0 {
      ContinuesExactly(last, k);
      LineIs(last, k, rest);
    } else {
      assert last + rest == last;
      NoNewline(last);
      assert last[|last| - 1] in last;
    }
  }

  lemma LineIs(line: seq<Byte>, k: nat, rest: seq<Byte>)
    requires EndsWith(line, k)
    ensures FirstLine(line + rest) == |line|
  {
    FirstIs(line, rest);
  }

  /** When every line to the end of the text goes on, there is no logical line. */
  lemma {:induction false} NeverComplete(lines: seq<seq<Byte>>)
    requires AllGoOn(lines) && lines != []
    ensures Together(lines) != [] && LogicalLine(Together(lines)) == None && FileTokens(Together(lines)) == None
    decreases |lines|
  {
    hide Continues;
    var text := Together(lines);
    FirstGoesOn(lines, []);
    assert text + [] == text && Together(lines[1..]) + [] == Together(lines[1..]);
    assert text[..|lines[0]|] == lines[0] && text[|lines[0]|..] == Together(lines[1..]);
    if |lines| > 1 {
      NeverComplete(lines[1..]);
    }
  }
}
