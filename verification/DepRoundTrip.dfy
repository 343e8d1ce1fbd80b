/** Names written with their escapes are read back from a dependency file. */
module DepRoundTrip {
  import opened Options
  import opened Bytes
  import opened DepFile

  function Esc(c: Byte): (e: seq<Byte>)
    ensures 1 <= |e| <= 2
  {
    if c == BACKSLASH || c == SPACE || c == TAB || c == NEWLINE || c == COLON then [BACKSLASH, c]
    else if c == DOLLAR then [DOLLAR, DOLLAR]
    else [c]
  }

  function Written(name: seq<Byte>): seq<Byte> {
    if name == [] then [] else Esc(name[0]) + Written(name[1..])
  }

  /** A name without the newlines in front of it: after a blank, those are taken for the joints of a joined line. */
  function Trimmed(name: seq<Byte>): (t: seq<Byte>)
    ensures t != [] ==> t[0] != NEWLINE
    ensures NUL !in name ==> NUL !in t
  {
    if name != [] && name[0] == NEWLINE then Trimmed(name[1..]) else name
  }

  /** What comes back of names that follow a blank; nothing comes back of a name that is all newlines. */
  function ReadBack(names: seq<seq<Byte>>): seq<seq<Byte>> {
    if names == [] then []
    else (if Trimmed(names[0]) == [] then [] else [Trimmed(names[0])]) + ReadBack(names[1..])
  }

  /** What comes back of the targets; the first one, if it has any byte, follows no blank. */
  function ReadTargets(names: seq<seq<Byte>>): seq<seq<Byte>> {
    if names == [] || names[0] == [] then ReadBack(names) else [names[0]] + ReadBack(names[1..])
  }

  function TargetsText(names: seq<seq<Byte>>): seq<Byte> {
    if names == [] then [COLON] else Written(names[0]) + ([SPACE] + TargetsText(names[1..]))
  }

  function DepsText(names: seq<seq<Byte>>): seq<Byte> {
    if names == [] then [NEWLINE] else [SPACE] + (Written(names[0]) + DepsText(names[1..]))
  }

  function RuleText(targets: seq<seq<Byte>>, deps: seq<seq<Byte>>): seq<Byte> {
    TargetsText(targets) + DepsText(deps)
  }

  function TargetTokens(names: seq<seq<Byte>>): seq<Token> {
    if names == [] then [] else [Target(names[0])] + TargetTokens(names[1..])
  }

  function DepTokens(names: seq<seq<Byte>>): seq<Token> {
    if names == [] then [] else [Dep(names[0])] + DepTokens(names[1..])
  }

  predicate Separator(c: Byte) {
    c == SPACE || c == COLON || c == NEWLINE
  }

  /** A written name is one word. */
  lemma {:induction false} WrittenWord(s: seq<Byte>, i: nat, name: seq<Byte>, rest: seq<Byte>)
    requires i <= |s| && s[i..] == Written(name) + rest && rest != [] && Separator(rest[0]) && NUL !in name
    ensures WordEnd(s, i) == i + |Written(name)|
    decreases |name|
  {
    if name == [] {
      AfterPrefix(s, i, [], rest);
      assert s[i] == s[i..][0];
    } else {
      var e, more := Esc(name[0]), Written(name[1..]) + rest;
      assert name[0] in name;
      assert s[i..] == e + more;
      AfterPrefix(s, i, e, more);
      WrittenWord(s, i + |e|, name[1..], rest);
    }
  }

  lemma {:induction false} WrittenReads(name: seq<Byte>)
    ensures Unescaped(Written(name)) == Some(name)
    decreases |name|
  {
    if name != [] {
      var e, more := Esc(name[0]), Written(name[1..]);
      WrittenReads(name[1..]);
      assert (e + more)[|e|..] == more;
      assert [name[0]] + name[1..] == name;
    }
  }

  lemma WrittenFirst(s: seq<Byte>, i: nat, name: seq<Byte>, rest: seq<Byte>)
    requires i <= |s| && s[i..] == Written(name) + rest && name != []
    ensures i + |Esc(name[0])| <= |s| && s[i] == Esc(name[0])[0]
    ensures |Esc(name[0])| == 2 ==> s[i + 1] == Esc(name[0])[1]
  {
    hide Esc;
    var e := Esc(name[0]);
    Regroup(e, Written(name[1..]), rest);
    AfterPrefix(s, i, e, Written(name[1..]) + rest);
  }

  /** A written name begins with something that is not skipped as space. */
  lemma WrittenStarts(s: seq<Byte>, i: nat, name: seq<Byte>, rest: seq<Byte>)
    requires i <= |s| && s[i..] == Written(name) + rest && name != [] && NUL !in name && name[0] != NEWLINE
    ensures DepFile.SkipSpace(s, i, true) == DepFile.SkipSpace(s, i, false) == i && i < |s| && s[i] != NUL
    ensures s[i] != NEWLINE
  {
    hide Written;
    assert name[0] in name;
    WrittenFirst(s, i, name, rest);
  }

  /** A word that ends at `e`. */
  lemma WordsAt(s: seq<Byte>, i: nat, colon: bool, e: nat, w: seq<Byte>)
    requires i < e < |s| && WordEnd(s, i) == e && Unescaped(s[i..e]) == Some(w)
    requires s[e] == SPACE || (colon && s[e] == NEWLINE)
    ensures var t := if colon then Dep(w) else Target(w);
      Words(s, i, colon) == if s[e] == NEWLINE then Tokens([t])
        else Before([t], Words(s, DepFile.SkipSpace(s, e + 1, true), colon))
  {
    hide WordEnd, Unescaped, DepFile.SkipSpace;
  }

  /** The word at `i` is a name, and what follows its separator gives the rest. */
  lemma NameThenWords(s: seq<Byte>, i: nat, name: seq<Byte>, sep: Byte, rest: seq<Byte>, colon: bool)
    requires i <= |s| && s[i..] == Written(name) + ([sep] + rest) && name != [] && NUL !in name
    requires sep == SPACE || (colon && sep == NEWLINE)
    ensures var e := i + |Written(name)|; var t := if colon then Dep(name) else Target(name);
      && e + 1 <= |s| && s[e + 1..] == rest
      && Words(s, i, colon) == if sep == NEWLINE then Tokens([t])
        else Before([t], Words(s, DepFile.SkipSpace(s, e + 1, true), colon))
  {
    hide WordEnd, Unescaped, DepFile.SkipSpace, Words, Written, Before;
    WrittenWord(s, i, name, [sep] + rest);
    WrittenReads(name);
    AfterPrefix(s, i, Written(name), [sep] + rest);
    AfterPrefix(s, i + |Written(name)|, [sep], rest);
    WrittenLength(name);
    WordsAt(s, i, colon, i + |Written(name)|, name);
  }

  lemma WrittenLength(name: seq<Byte>)
    requires name != []
    ensures Written(name) != []
  {
  }

  lemma SkipOne(s: seq<Byte>, i: nat)
    requires i < |s| && s[i] == SPACE
    ensures DepFile.SkipSpace(s, i, true) == DepFile.SkipSpace(s, i, false) == DepFile.SkipSpace(s, i + 1, true)
  {
  }

  /** After a blank the newlines in front of a name are skipped. */
  lemma {:induction false} NewlinesSkipped(s: seq<Byte>, i: nat, name: seq<Byte>, rest: seq<Byte>) returns (j: nat)
    requires i <= |s| && s[i..] == Written(name) + rest
    ensures i <= j <= |s| && s[j..] == Written(Trimmed(name)) + rest
    ensures DepFile.SkipSpace(s, i, true) == DepFile.SkipSpace(s, j, true)
    decreases |name|
  {
    if name != [] && name[0] == NEWLINE {
      Regroup(Esc(NEWLINE), Written(name[1..]), rest);
      AfterPrefix(s, i, Esc(NEWLINE), Written(name[1..]) + rest);
      j := NewlinesSkipped(s, i + 2, name[1..], rest);
    } else {
      j := i;
    }
  }

  lemma DepsSplit(names: seq<seq<Byte>>)
    requires names != []
    ensures DepsText(names) + [NUL] == [SPACE] + (Written(names[0]) + (DepsText(names[1..]) + [NUL]))
    ensures var n := Trimmed(names[0]);
      DepTokens(ReadBack(names)) == (if n == [] then [] else [Dep(n)]) + DepTokens(ReadBack(names[1..]))
  {
    hide Written, Trimmed;
    Regroup([SPACE], Written(names[0]) + DepsText(names[1..]), [NUL]);
    Regroup(Written(names[0]), DepsText(names[1..]), [NUL]);
    var n, rest := Trimmed(names[0]), ReadBack(names[1..]);
    if n == [] {
      assert [] + rest == rest && [] + DepTokens(rest) == DepTokens(rest);
    } else {
      assert ([n] + rest)[1..] == rest;
    }
  }

  lemma DepsNone(s: seq<Byte>, i: nat, names: seq<seq<Byte>>)
    requires i <= |s| && s[i..] == DepsText(names) + [NUL] && names == []
    ensures i < |s| && s[i] == NEWLINE && DepTokens(ReadBack(names)) == []
    ensures DepFile.SkipSpace(s, i, true) == i && Words(s, i, true) == Tokens([])
  {
    AfterPrefix(s, i, [NEWLINE], [NUL]);
    assert WordEnd(s, i) == i && s[i..i] == [];
  }

  /** The dependencies up to the end of the line; `i` is where the last word ended. */
  lemma {:induction false} DepsRead(s: seq<Byte>, i: nat, names: seq<seq<Byte>>)
    requires i <= |s| && s[i..] == DepsText(names) + [NUL] && NulFree(names)
    ensures i < |s| && s[i] == if names == [] then NEWLINE else SPACE
    ensures Words(s, DepFile.SkipSpace(s, i, true), true) == Tokens(DepTokens(ReadBack(names)))
    decreases |names|, 0
  {
    hide Words, WordEnd, Unescaped, DepFile.SkipSpace, Written, DepsText, DepTokens, ReadBack, Trimmed;
    if names == [] {
      DepsNone(s, i, names);
    } else {
      var more := DepsText(names[1..]) + [NUL];
      DepsSplit(names);
      AfterPrefix(s, i, [SPACE], Written(names[0]) + more);
      SkipOne(s, i);
      var j := NewlinesSkipped(s, i + 1, names[0], more);
      DepRead(s, j, Trimmed(names[0]), names[1..]);
    }
  }

  /** One dependency without newlines in front, and those after it. */
  lemma {:induction false} DepRead(s: seq<Byte>, j: nat, name: seq<Byte>, names: seq<seq<Byte>>)
    requires j <= |s| && s[j..] == Written(name) + (DepsText(names) + [NUL]) && NulFree(names)
    requires NUL !in name && (name != [] ==> name[0] != NEWLINE)
    ensures Words(s, DepFile.SkipSpace(s, j, true), true) ==
      Tokens((if name == [] then [] else [Dep(name)]) + DepTokens(ReadBack(names)))
    decreases |names|, 1
  {
    hide Words, WordEnd, Unescaped, DepFile.SkipSpace, Written, DepsText, DepTokens, ReadBack, Trimmed;
    var more := DepsText(names) + [NUL];
    AfterPrefix(s, j, Written(name), more);
    var e := j + |Written(name)|;
    DepsRead(s, e, names);
    if name == [] {
      NothingWritten();
      assert [] + DepTokens(ReadBack(names)) == DepTokens(ReadBack(names));
    } else {
      WrittenStarts(s, j, name, more);
      var sep, rest := s[e], s[e + 1..];
      assert more == s[e..] == [sep] + rest;
      NameThenWords(s, j, name, sep, rest, true);
      if names == [] {
        DepsNone(s, e, names);
      } else {
        SkipOne(s, e);
      }
    }
  }

  lemma NothingWritten()
    ensures |Written([])| == 0
  {
  }

  /** After the colon. */
  lemma ColonThenDeps(s: seq<Byte>, i: nat, deps: seq<seq<Byte>>)
    requires i <= |s| && s[i..] == [COLON] + (DepsText(deps) + [NUL]) && NulFree(deps)
    ensures Words(s, i, false) == Tokens(DepTokens(ReadBack(deps)))
  {
    hide DepsText, ReadBack, DepTokens, DepFile.SkipSpace;
    AfterPrefix(s, i, [COLON], DepsText(deps) + [NUL]);
    DepsRead(s, i + 1, deps);
    assert WordEnd(s, i) == i && s[i..i] == [];
    assert [] + DepTokens(ReadBack(deps)) == DepTokens(ReadBack(deps));
  }

  lemma TargetsSplit(names: seq<seq<Byte>>, tail: seq<Byte>)
    requires names != []
    ensures TargetsText(names) + tail == Written(names[0]) + ([SPACE] + (TargetsText(names[1..]) + tail))
    ensures var n := Trimmed(names[0]);
      TargetTokens(ReadBack(names)) == (if n == [] then [] else [Target(n)]) + TargetTokens(ReadBack(names[1..]))
  {
    hide Written, Trimmed;
    Regroup(Written(names[0]), [SPACE] + TargetsText(names[1..]), tail);
    Regroup([SPACE], TargetsText(names[1..]), tail);
    var n, rest := Trimmed(names[0]), ReadBack(names[1..]);
    if n == [] {
      assert [] + rest == rest && [] + TargetTokens(rest) == TargetTokens(rest);
    } else {
      assert ([n] + rest)[1..] == rest;
    }
  }

  lemma TargetsNone(s: seq<Byte>, i: nat, names: seq<seq<Byte>>, deps: seq<seq<Byte>>)
    requires names == [] && i <= |s| && s[i..] == TargetsText(names) + (DepsText(deps) + [NUL])
    ensures s[i..] == [COLON] + (DepsText(deps) + [NUL]) && i < |s| && s[i] == COLON
    ensures TargetTokens(ReadBack(names)) + DepTokens(ReadBack(deps)) == DepTokens(ReadBack(deps))
    ensures DepFile.SkipSpace(s, i, true) == DepFile.SkipSpace(s, i, false) == i
  {
    hide DepsText, DepTokens;
    AfterPrefix(s, i, [COLON], DepsText(deps) + [NUL]);
    assert [] + DepTokens(ReadBack(deps)) == DepTokens(ReadBack(deps));
  }

  /** The targets and what follows them, after a blank. */
  lemma {:induction false} TargetsRead(s: seq<Byte>, i: nat, names: seq<seq<Byte>>, deps: seq<seq<Byte>>)
    requires i <= |s| && s[i..] == TargetsText(names) + (DepsText(deps) + [NUL]) && NulFree(names) && NulFree(deps)
    ensures var k := DepFile.SkipSpace(s, i, true);
      k < |s| && s[k] != NUL && s[k] != NEWLINE
      && Words(s, k, false) == Tokens(TargetTokens(ReadBack(names)) + DepTokens(ReadBack(deps)))
    decreases |names|, 0
  {
    hide Words, WordEnd, Unescaped, DepFile.SkipSpace, Written, DepsText, TargetsText, TargetTokens, DepTokens,
      ReadBack, Trimmed;
    if names == [] {
      TargetsNone(s, i, names, deps);
      ColonThenDeps(s, i, deps);
    } else {
      var more := TargetsText(names[1..]) + (DepsText(deps) + [NUL]);
      TargetsSplit(names, DepsText(deps) + [NUL]);
      var j := NewlinesSkipped(s, i, names[0], [SPACE] + more);
      var n := Trimmed(names[0]);
      if n == [] {
        NothingWritten();
        AfterPrefix(s, j, [], [SPACE] + more);
        AfterPrefix(s, j, [SPACE], more);
        SkipOne(s, j);
        TargetsRead(s, j + 1, names[1..], deps);
        assert [] + TargetTokens(ReadBack(names[1..])) == TargetTokens(ReadBack(names[1..]));
      } else {
        WrittenStarts(s, j, n, [SPACE] + more);
        TargetRead(s, j, n, names[1..], deps);
        Regroup([Target(n)], TargetTokens(ReadBack(names[1..])), DepTokens(ReadBack(deps)));
      }
    }
  }

  /** One target where a word begins, and what follows it. */
  lemma {:induction false} TargetRead(s: seq<Byte>, j: nat, name: seq<Byte>, names: seq<seq<Byte>>,
        deps: seq<seq<Byte>>)
    requires j <= |s| && s[j..] == Written(name) + ([SPACE] + (TargetsText(names) + (DepsText(deps) + [NUL])))
    requires name != [] && NUL !in name && NulFree(names) && NulFree(deps)
    ensures Words(s, j, false) == Tokens([Target(name)] + (TargetTokens(ReadBack(names)) + DepTokens(ReadBack(deps))))
    decreases |names|, 1
  {
    hide Words, WordEnd, Unescaped, DepFile.SkipSpace, Written, DepsText, TargetsText, TargetTokens, DepTokens,
      ReadBack;
    NameThenWords(s, j, name, SPACE, TargetsText(names) + (DepsText(deps) + [NUL]), false);
    TargetsRead(s, j + |Written(name)| + 1, names, deps);
  }

  /** Line round trip, for all names without NUL bytes: the first target comes back as it is, and every other name
      without the newlines in front of it, or not at all when nothing else is left. */
  lemma RuleReads(targets: seq<seq<Byte>>, deps: seq<seq<Byte>>)
    requires NulFree(targets) && NulFree(deps)
    ensures LineTokens(RuleText(targets, deps) + [NUL]) ==
      Tokens(TargetTokens(ReadTargets(targets)) + DepTokens(ReadBack(deps)))
  {
    hide Words, WordEnd, Unescaped, DepFile.SkipSpace, Written, TargetsText, DepsText, TargetTokens, DepTokens,
      ReadBack;
    var s := RuleText(targets, deps) + [NUL];
    var tail := DepsText(deps) + [NUL];
    Regroup(TargetsText(targets), DepsText(deps), [NUL]);
    assert s[0..] == s;
    if targets == [] {
      TargetsNone(s, 0, targets, deps);
      TargetsRead(s, 0, targets, deps);
    } else {
      TargetsSplit(targets, tail);
      var more := TargetsText(targets[1..]) + tail;
      if targets[0] == [] {
        NothingWritten();
        assert s == [SPACE] + more;
        SkipOne(s, 0);
        TargetsRead(s, 0, targets, deps);
      } else {
        FirstStarts(s, targets[0], [SPACE] + more);
        TargetRead(s, 0, targets[0], targets[1..], deps);
        FirstToken(targets, deps);
      }
    }
  }

  /** At the beginning of a line nothing of a name is skipped. */
  lemma FirstStarts(s: seq<Byte>, name: seq<Byte>, rest: seq<Byte>)
    requires s == Written(name) + rest && name != [] && NUL !in name
    ensures DepFile.SkipSpace(s, 0, false) == 0 && s != [] && s[0] != NUL && s[0] != NEWLINE
  {
    hide Written;
    assert s[0..] == s && name[0] in name;
    WrittenFirst(s, 0, name, rest);
  }

  lemma FirstToken(targets: seq<seq<Byte>>, deps: seq<seq<Byte>>)
    requires targets != [] && targets[0] != []
    ensures TargetTokens(ReadTargets(targets)) + DepTokens(ReadBack(deps)) ==
      [Target(targets[0])] + (TargetTokens(ReadBack(targets[1..])) + DepTokens(ReadBack(deps)))
  {
    hide ReadBack, DepTokens;
    var rest := ReadBack(targets[1..]);
    assert ([targets[0]] + rest)[1..] == rest;
    Regroup([Target(targets[0])], TargetTokens(rest), DepTokens(ReadBack(deps)));
  }

  /** Names after a blank come back as they were written exactly when each has a byte and none begins with a newline. */
  lemma {:induction false} ComesBack(names: seq<seq<Byte>>)
    ensures |ReadBack(names)| <= |names|
    ensures ReadBack(names) == names <==> forall k | 0 <= k < |names| :: names[k] != [] && names[k][0] != NEWLINE
    decreases |names|
  {
    if names != [] {
      ComesBack(names[1..]);
      assert forall k | 0 < k < |names| :: names[k] == names[1..][k - 1];
      assert names == [names[0]] + names[1..];
      TrimmedSame(names[0]);
      if Trimmed(names[0]) != [] {
        assert ReadBack(names)[1..] == ReadBack(names[1..]);
      }
    }
  }

  lemma {:induction false} TrimmedSame(name: seq<Byte>)
    ensures |Trimmed(name)| <= |name| && (Trimmed(name) == name <==> name == [] || name[0] != NEWLINE)
    decreases |name|
  {
    if name != [] && name[0] == NEWLINE {
      TrimmedSame(name[1..]);
    }
  }

  /** What of a rule's names the line parser gives back. */
  predicate Survives(targets: seq<seq<Byte>>, deps: seq<seq<Byte>>) {
    && (forall k | 0 <= k < |targets| :: targets[k] != [] && (k > 0 ==> targets[k][0] != NEWLINE))
    && (forall k | 0 <= k < |deps| :: deps[k] != [] && deps[k][0] != NEWLINE)
  }

  /** A written rule reads back as itself exactly when every name has a byte and none but the first target begins
      with a newline. */
  lemma RuleComesBack(targets: seq<seq<Byte>>, deps: seq<seq<Byte>>)
    requires NulFree(targets) && NulFree(deps)
    ensures LineTokens(RuleText(targets, deps) + [NUL]) == Tokens(TargetTokens(targets) + DepTokens(deps)) <==>
      Survives(targets, deps)
  {
    hide LineTokens, RuleText, TargetTokens, DepTokens, ReadTargets, ReadBack, NulFree;
    RuleReads(targets, deps);
    ComesBack(deps);
    TargetsComeBack(targets);
    SameTokens(ReadTargets(targets), ReadBack(deps), targets, deps);
  }

  lemma TargetsComeBack(names: seq<seq<Byte>>)
    ensures |ReadTargets(names)| <= |names|
    ensures ReadTargets(names) == names <==> forall k | 0 <= k < |names| ::
      names[k] != [] && (k > 0 ==> names[k][0] != NEWLINE)
  {
    ComesBack(names);
    if names != [] && names[0] != [] {
      var rest := names[1..];
      ComesBack(rest);
      assert ReadTargets(names)[1..] == ReadBack(rest);
      assert names == [names[0]] + rest;
      assert forall k | 0 < k < |names| :: names[k] == rest[k - 1];
      assert forall k | 0 <= k < |rest| :: rest[k] == names[k + 1];
    }
  }

  lemma {:induction false} TokensAt(names: seq<seq<Byte>>)
    ensures |TargetTokens(names)| == |DepTokens(names)| == |names|
    ensures forall k | 0 <= k < |names| ::
      TargetTokens(names)[k] == Target(names[k]) && DepTokens(names)[k] == Dep(names[k])
    decreases |names|
  {
    if names != [] {
      TokensAt(names[1..]);
    }
  }

  lemma SameHalves<T>(a: seq<T>, b: seq<T>, c: seq<T>, d: seq<T>)
    requires |a| <= |c| && |b| <= |d|
    ensures a + b == c + d <==> a == c && b == d
  {
    if a + b == c + d {
      assert |a + b| == |a| + |b| && |c + d| == |c| + |d|;
      assert (a + b)[..|a|] == a && (c + d)[..|c|] == c;
      assert (a + b)[|a|..] == b && (c + d)[|c|..] == d;
    }
  }

  lemma TokensTell(a: seq<seq<Byte>>, b: seq<seq<Byte>>)
    ensures TargetTokens(a) == TargetTokens(b) <==> a == b
    ensures DepTokens(a) == DepTokens(b) <==> a == b
  {
    hide TargetTokens, DepTokens;
    TokensAt(a);
    TokensAt(b);
    if TargetTokens(a) == TargetTokens(b) {
      assert forall k | 0 <= k < |a| :: TargetTokens(a)[k] == TargetTokens(b)[k];
    }
    if DepTokens(a) == DepTokens(b) {
      assert forall k | 0 <= k < |a| :: DepTokens(a)[k] == DepTokens(b)[k];
    }
  }

  /** The tokens tell the names, and targets from dependencies. */
  lemma SameTokens(a: seq<seq<Byte>>, b: seq<seq<Byte>>, c: seq<seq<Byte>>, d: seq<seq<Byte>>)
    requires |a| <= |c| && |b| <= |d|
    ensures TargetTokens(a) + DepTokens(b) == TargetTokens(c) + DepTokens(d) <==> a == c && b == d
  {
    hide TargetTokens, DepTokens;
    TokenCounts(a, c);
    TokenCounts(b, d);
    SameHalves(TargetTokens(a), DepTokens(b), TargetTokens(c), DepTokens(d));
    TokensTell(a, c);
    TokensTell(b, d);
  }

  lemma TokenCounts(a: seq<seq<Byte>>, b: seq<seq<Byte>>)
    ensures |TargetTokens(a)| == |DepTokens(a)| == |a| && |TargetTokens(b)| == |DepTokens(b)| == |b|
  {
    TokensAt(a);
    TokensAt(b);
  }

  // Lines

  /** No newline but escaped ones, and nothing escaped at the end. */
  predicate Quiet(t: seq<Byte>) {
    !Escaping(t) && forall k | 0 <= k < |t| :: t[k] == NEWLINE ==> Escaping(t[..k])
  }

  lemma {:induction false} EscapingAfter(a: seq<Byte>, b: seq<Byte>)
    requires !Escaping(a)
    ensures Escaping(a + b) == Escaping(b)
    decreases |b|
  {
    if b == [] {
      assert a + b == a;
    } else {
      assert (a + b)[..|a + b| - 1] == a + b[..|b| - 1];
      EscapingAfter(a, b[..|b| - 1]);
    }
  }

  lemma QuietTogether(a: seq<Byte>, b: seq<Byte>)
    requires Quiet(a) && Quiet(b)
    ensures Quiet(a + b)
  {
    hide Escaping;
    EscapingAfter(a, b);
    forall k | 0 <= k < |a + b| && (a + b)[k] == NEWLINE
      ensures Escaping((a + b)[..k])
    {
      if k < |a| {
        assert (a + b)[..k] == a[..k];
      } else {
        assert (a + b)[..k] == a + b[..k - |a|];
        EscapingAfter(a, b[..k - |a|]);
      }
    }
  }

  lemma EscQuiet(c: Byte)
    ensures Quiet(Esc(c))
  {
    var e := Esc(c);
    assert e[..0] == [];
    if |e| == 2 {
      var one := [e[0]];
      assert one[..|one| - 1] == [] && e[..|e| - 1] == one == e[..1];
      assert Escaping(one) == (e[0] == BACKSLASH);
    }
  }

  lemma {:induction false} WrittenQuiet(name: seq<Byte>)
    ensures Quiet(Written(name))
    decreases |name|
  {
    if name != [] {
      EscQuiet(name[0]);
      WrittenQuiet(name[1..]);
      QuietTogether(Esc(name[0]), Written(name[1..]));
    }
  }

  lemma {:induction false} TargetsQuiet(names: seq<seq<Byte>>)
    ensures Quiet(TargetsText(names))
    decreases |names|
  {
    hide Written, Escaping, Quiet;
    One(COLON);
    One(SPACE);
    if names != [] {
      WrittenQuiet(names[0]);
      TargetsQuiet(names[1..]);
      QuietTogether([SPACE], TargetsText(names[1..]));
      QuietTogether(Written(names[0]), [SPACE] + TargetsText(names[1..]));
    }
  }

  lemma One(c: Byte)
    requires c == COLON || c == SPACE
    ensures Quiet([c])
  {
  }

  /** All of a dependency text but its newline. */
  lemma {:induction false} DepsQuiet(names: seq<seq<Byte>>) returns (body: seq<Byte>)
    ensures Quiet(body) && DepsText(names) == body + [NEWLINE]
    decreases |names|
  {
    hide Written, Escaping;
    if names == [] {
      body := [];
      QuietNothing();
    } else {
      hide Quiet;
      var more := DepsQuiet(names[1..]);
      One(SPACE);
      WrittenQuiet(names[0]);
      QuietTogether(Written(names[0]), more);
      QuietTogether([SPACE], Written(names[0]) + more);
      body := [SPACE] + (Written(names[0]) + more);
      Regroup(Written(names[0]), more, [NEWLINE]);
      Regroup([SPACE], Written(names[0]) + more, [NEWLINE]);
    }
  }

  lemma QuietNothing()
    ensures Quiet([])
  {
  }

  /** A quiet text and a newline make one logical line. */
  lemma {:induction false} OneLogicalLine(text: seq<Byte>, n: nat)
    requires 0 < n <= |text| && text[n - 1] == NEWLINE && Quiet(text[..n - 1])
    ensures LogicalLine(text) == Some(n)
    decreases n
  {
    hide Escaping, Trailing;
    var k := FirstLine(text);
    if k >= n {
      assert k == n && text[..n][..n - 1] == text[..n - 1];
      EscapingIsOdd(text[..n - 1]);
    } else {
      var head, rest := text[..k], text[k..];
      assert text[..n - 1][k - 1] == NEWLINE && text[..n - 1][..k - 1] == text[..k - 1] == head[..k - 1];
      EscapingIsOdd(head[..k - 1]);
      NewlineEnds(head);
      Nonempty(head[..k - 1]);
      var body := rest[..n - k - 1];
      assert head + body == text[..n - 1];
      EscapingAfter(head, body);
      forall j | 0 <= j < |body| && body[j] == NEWLINE
        ensures Escaping(body[..j])
      {
        assert text[..n - 1][k + j] == NEWLINE && text[..n - 1][..k + j] == head + body[..j];
        EscapingAfter(head, body[..j]);
      }
      OneLogicalLine(rest, n - k);
    }
  }

  lemma NewlineEnds(s: seq<Byte>)
    requires s != [] && s[|s| - 1] == NEWLINE
    ensures !Escaping(s)
  {
  }

  lemma Nonempty(s: seq<Byte>)
    requires Escaping(s)
    ensures s != []
  {
  }

  datatype Rule = Rule(targets: seq<seq<Byte>>, deps: seq<seq<Byte>>)

  predicate RuleOk(r: Rule) {
    NulFree(r.targets) && NulFree(r.deps)
  }

  function RulesText(rs: seq<Rule>): seq<Byte> {
    if rs == [] then [] else RuleText(rs[0].targets, rs[0].deps) + RulesText(rs[1..])
  }

  function RulesTokens(rs: seq<Rule>): seq<seq<Token>> {
    if rs == [] then []
    else [TargetTokens(ReadTargets(rs[0].targets)) + DepTokens(ReadBack(rs[0].deps))] + RulesTokens(rs[1..])
  }

  /** File round trip: a file of rules is read back rule by rule; newlines inside names do not break its lines. */
  lemma {:induction false} FileReads(rs: seq<Rule>)
    requires forall k | 0 <= k < |rs| :: RuleOk(rs[k])
    ensures FileTokens(RulesText(rs)) == Some(RulesTokens(rs))
    decreases |rs|
  {
    hide LogicalLine, LineTokens, TargetsText, DepsText, Quiet;
    if rs != [] {
      var r, rest := rs[0], RulesText(rs[1..]);
      var line := RuleText(r.targets, r.deps);
      var text := line + rest;
      TargetsQuiet(r.targets);
      var body := DepsQuiet(r.deps);
      QuietTogether(TargetsText(r.targets), body);
      assert line == TargetsText(r.targets) + body + [NEWLINE];
      assert text[..|line| - 1] == TargetsText(r.targets) + body;
      OneLogicalLine(text, |line|);
      RuleReads(r.targets, r.deps);
      FileReads(rs[1..]);
      assert text[..|line|] == line && text[|line|..] == rest;
    }
  }
}
