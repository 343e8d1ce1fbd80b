/** Reading back what was printed. */
module DbRoundTrip {
  import opened Options
  import opened Bytes
  import opened Literal
  import opened DbFormat

  lemma QuotedReads(s: seq<Byte>, i: nat, str: seq<Byte>, rest: seq<Byte>)
    requires i <= |s| && s[i..] == Quoted(str) + rest && NUL !in str
    ensures i < |s| && s[i] == QUOTE && DecodeAt(s, i + 1) == Read(str, i + |Quoted(str)|)
    ensures i + |Quoted(str)| <= |s| && s[i + |Quoted(str)|..] == rest
    ensures rest != [] ==> i + |Quoted(str)| < |s| && s[i + |Quoted(str)|] == rest[0]
  {
    hide EscapedAll, DecodeAt;
    var e := EscapedAll(str);
    Regroup([QUOTE] + e, [QUOTE], rest);
    Regroup([QUOTE], e, [QUOTE] + rest);
    AfterPrefix(s, i, [QUOTE], e + ([QUOTE] + rest));
    LiteralRoundTrip(s, i + 1, str, rest);
    AfterPrefix(s, i, Quoted(str), rest);
  }

  lemma {:induction false} WholeCString(s: seq<Byte>)
    requires NUL !in s
    ensures CString(s) == s
    decreases |s|
  {
    if s != [] {
      assert s[0] in s;
      WholeCString(s[1..]);
    }
  }

  function AddArgs(args: seq<seq<Byte>>): seq<Action> {
    if args == [] then [] else [AddArg(args[0])] + AddArgs(args[1..])
  }

  /** At most one space before what follows. */
  predicate Gap(gap: seq<Byte>, rest: seq<Byte>) {
    && (gap == [] || gap == [SPACE])
    && rest != [] && !IsBlank(rest[0]) && rest[0] != NUL
  }

  lemma GapSkipped(s: seq<Byte>, i: nat, gap: seq<Byte>, rest: seq<Byte>)
    requires i <= |s| && s[i..] == gap + rest && Gap(gap, rest)
    ensures i + |gap| < |s| && s[i + |gap|..] == rest && s[i + |gap|] == rest[0]
    ensures SkipBlanks(s, i) == i + |gap| && s[i] == (gap + rest)[0]
  {
    AfterPrefix(s, i, gap, rest);
    if gap == [SPACE] {
      assert SkipBlanks(s, i) == SkipBlanks(s, i + 1);
    }
  }

  /** A literal is read, and the loop goes on after it. */
  lemma StringScan(s: seq<Byte>, isCmd: bool, v2: bool, i: nat, c: Cursor, str: seq<Byte>, gap: seq<Byte>,
        rest: seq<Byte>)
    requires i <= |s| && s[i..] == Quoted(str) + (gap + rest) && NUL !in str && !c.two && Gap(gap, rest)
    requires gap == [] ==> rest[0] == NEWLINE || rest[0] == COLON || rest[0] == EQUALS
    ensures i + |Quoted(str)| + |gap| <= |s| && s[i + |Quoted(str)| + |gap|..] == rest
    ensures var (acts, c') := TakeString(isCmd, c, str);
      Scan(s, isCmd, v2, i, c) == Prefixed(acts, Scan(s, isCmd, v2, i + |Quoted(str)| + |gap|, c'))
  {
    hide TakeString, Quoted, DecodeAt, SkipBlanks, Scan, StepAt;
    QuotedReads(s, i, str, gap + rest);
    GapSkipped(s, i + |Quoted(str)|, gap, rest);
    StringStep(s, isCmd, v2, i, c, str, i + |Quoted(str)|);
  }

  lemma StringStep(s: seq<Byte>, isCmd: bool, v2: bool, i: nat, c: Cursor, str: seq<Byte>, end: nat)
    requires i < |s| && s[i] == QUOTE && DecodeAt(s, i + 1) == Read(str, end) && !c.two
    requires end < |s| && s[end] != NUL && (IsBlank(s[end]) || s[end] == NEWLINE || s[end] == COLON || s[end] == EQUALS)
    requires SkipBlanks(s, end) < |s| && s[SkipBlanks(s, end)] != NUL
    ensures var (acts, c') := TakeString(isCmd, c, str);
      Scan(s, isCmd, v2, i, c) == Prefixed(acts, Scan(s, isCmd, v2, SkipBlanks(s, end), c'))
  {
    hide TakeString, DecodeAt, SkipBlanks, EndOfLine, Prefixed;
  }

  lemma ArgsStart(args: seq<seq<Byte>>)
    ensures ArgsText(args) != [] && ArgsText(args)[0] == if args == [] then NEWLINE else QUOTE
  {
    hide EscapedAll;
    if args != [] {
      assert Quoted(args[0])[0] == QUOTE;
    }
  }

  lemma ArgsUnfold(args: seq<seq<Byte>>)
    requires args != []
    ensures ArgsText(args) == Quoted(args[0]) + ((if |args| == 1 then [] else [SPACE]) + ArgsText(args[1..]))
  {
    hide Quoted;
  }

  lemma NewlineScan(s: seq<Byte>, v2: bool, i: nat, args: seq<seq<Byte>>)
    requires i <= |s| && args == [] && s[i..] == ArgsText(args) + [NUL]
    ensures Scan(s, true, v2, i, NEW_LINE) == Actions([])
  {
    AfterPrefix(s, i, [NEWLINE], [NUL]);
  }

  /** A command line is read back as its arguments. */
  lemma {:induction false} ArgsScan(s: seq<Byte>, v2: bool, i: nat, args: seq<seq<Byte>>)
    requires i <= |s| && s[i..] == ArgsText(args) + [NUL] && NulFree(args)
    ensures Scan(s, true, v2, i, NEW_LINE) == Actions(AddArgs(args))
    decreases |args|
  {
    hide Scan, DecodeAt, CString, EscapedAll, ArgsText, Quoted;
    if args == [] {
      NewlineScan(s, v2, i, args);
    } else {
      var a, rest := args[0], ArgsText(args[1..]);
      var gap := if |args| == 1 then [] else [SPACE];
      ArgsStart(args[1..]);
      ArgsUnfold(args);
      assert Quoted(a) + (gap + rest) + [NUL] == Quoted(a) + (gap + (rest + [NUL]));
      StringScan(s, true, v2, i, NEW_LINE, a, gap, rest + [NUL]);
      WholeCString(a);
      ArgsScan(s, v2, i + |Quoted(a)| + |gap|, args[1..]);
    }
  }

  lemma NothingBefore(e: LineEnd)
    ensures Prefixed([], e) == e
  {
    if e.Actions? {
      assert [] + e.acts == e.acts;
    }
  }

  lemma ColonScan(s: seq<Byte>, v2: bool, i: nat, c: Cursor)
    requires i <= |s| && s[i..] == [COLON, NEWLINE, NUL] && c.two && c.first == None && c.nums == []
    ensures Scan(s, false, v2, i, c) == Actions([])
  {
    assert s[i] == s[i..][0] && s[i + 1] == s[i..][1];
    assert Scan(s, false, v2, i + 1, c.(colon := true)) == EndOfLine(false, c.(colon := true));
    NothingBefore(Actions([]));
  }

  /** The line that opens an entry. */
  lemma HeadScan(s: seq<Byte>, v2: bool, e: Entry)
    requires s == HeadText(e) + [NUL] && NUL !in e.dir && NUL !in e.tgt
    ensures Scan(s, false, v2, 0, NEW_LINE) == Actions([OpenRule(e.dir, e.tgt)])
  {
    hide Scan, Quoted;
    var tail := [COLON, NEWLINE, NUL];
    var i := |Quoted(e.dir)| + 1;
    HeadSplit(e, s);
    StringScan(s, false, v2, 0, NEW_LINE, e.dir, [SPACE], Quoted(e.tgt) + tail);
    assert [] + tail == tail;
    StringScan(s, false, v2, i, NEW_LINE.(first := Some(e.dir)), e.tgt, [], tail);
    ColonScan(s, v2, i + |Quoted(e.tgt)|, NEW_LINE.(two := true));
  }

  lemma HeadSplit(e: Entry, s: seq<Byte>)
    requires s == HeadText(e) + [NUL]
    ensures s[0..] == Quoted(e.dir) + ([SPACE] + (Quoted(e.tgt) + [COLON, NEWLINE, NUL]))
    ensures Gap([SPACE], Quoted(e.tgt) + [COLON, NEWLINE, NUL])
  {
    hide EscapedAll;
    var d, t := Quoted(e.dir), Quoted(e.tgt);
    assert t[0] == QUOTE;
    hide Quoted;
    assert [COLON, NEWLINE] + [NUL] == [COLON, NEWLINE, NUL];
    Regroup(d, [SPACE] + (t + [COLON, NEWLINE]), [NUL]);
    Regroup([SPACE], t + [COLON, NEWLINE], [NUL]);
    Regroup(t, [COLON, NEWLINE], [NUL]);
  }

  lemma {:induction false} DecimalReads(n: nat)
    ensures AllDigits(Decimal(n)) && DecimalValue(Decimal(n)) == n
  {
    if n >= 10 {
      DecimalReads(n / 10);
      var d := Decimal(n);
      assert d[..|d| - 1] == Decimal(n / 10);
    }
  }

  lemma {:induction false} DigitsEnd(s: seq<Byte>, i: nat, d: seq<Byte>, rest: seq<Byte>)
    requires i <= |s| && s[i..] == d + rest && rest != [] && !IsDigit(rest[0])
    requires AllDigits(d)
    ensures SkipDigits(s, i) == i + |d|
    decreases |d|
  {
    AfterPrefix(s, i, d, rest);
    if d != [] {
      assert s[i..] == [d[0]] + (d[1..] + rest);
      AfterPrefix(s, i, [d[0]], d[1..] + rest);
      DigitsEnd(s, i + 1, d[1..], rest);
    }
  }

  /** A number is read, and the loop goes on after it; a minus sign fails the parse. */
  lemma NumberScan(s: seq<Byte>, i: nat, n: int, gap: seq<Byte>, rest: seq<Byte>, c: Cursor)
    requires i <= |s| && s[i..] == Signed(n) + (gap + rest) && |c.nums| < 3 && n <= LLONG_MAX
    requires Gap(gap, rest) && !IsDigit((gap + rest)[0])
    ensures n < 0 ==> Scan(s, false, true, i, c) == Rejected
    ensures i + |Signed(n)| + |gap| <= |s| && s[i + |Signed(n)| + |gap|..] == rest
    ensures n >= 0 ==>
      Scan(s, false, true, i, c) == Scan(s, false, true, i + |Signed(n)| + |gap|, c.(nums := c.nums + [n]))
  {
    hide SkipBlanks, Decimal, Scan, StepAt, Strtoll;
    AfterPrefix(s, i, Signed(n), gap + rest);
    var end := i + |Signed(n)|;
    GapSkipped(s, end, gap, rest);
    if n < 0 {
      MinusStep(s, i, c);
    } else {
      NumberEnds(s, i, n, gap + rest);
      DigitStep(s, i, end, n, c);
      NothingBefore(Scan(s, false, true, end + |gap|, c.(nums := c.nums + [n])));
    }
  }

  lemma MinusStep(s: seq<Byte>, i: nat, c: Cursor)
    requires i < |s| && s[i] == 45
    ensures Scan(s, false, true, i, c) == Rejected
  {
  }

  lemma DigitStep(s: seq<Byte>, i: nat, end: nat, n: int, c: Cursor)
    requires i < |s| && IsDigit(s[i]) && SkipDigits(s, i + 1) == end && Strtoll(s[i..end]) == n && |c.nums| < 3
    requires SkipBlanks(s, end) < |s| && s[SkipBlanks(s, end)] != NUL
    ensures Scan(s, false, true, i, c) ==
      Prefixed([], Scan(s, false, true, SkipBlanks(s, end), c.(nums := c.nums + [n])))
  {
    hide SkipBlanks, SkipDigits, DecodeAt, TakeString, EndOfLine, Prefixed;
    assert StepAt(s, false, true, i, c) == Next([], SkipBlanks(s, end), c.(nums := c.nums + [n]));
  }

  lemma NumberEnds(s: seq<Byte>, i: nat, n: nat, rest: seq<Byte>)
    requires i <= |s| && s[i..] == Decimal(n) + rest && rest != [] && !IsDigit(rest[0])
    requires n <= LLONG_MAX
    ensures i < |s| && IsDigit(s[i]) && SkipDigits(s, i + 1) == i + |Decimal(n)|
    ensures Strtoll(s[i..i + |Decimal(n)|]) == n
  {
    hide Decimal, DecimalValue, SkipDigits, Strtoll, AllDigits;
    StrtollOf(n);
    AfterPrefix(s, i, Decimal(n), rest);
    DigitsEnd(s, i, Decimal(n), rest);
    FirstDigit(s, i);
  }

  lemma StrtollOf(n: nat)
    requires n <= LLONG_MAX
    ensures AllDigits(Decimal(n)) && IsDigit(Decimal(n)[0]) && Strtoll(Decimal(n)) == n
  {
    DecimalReads(n);
  }

  lemma FirstDigit(s: seq<Byte>, i: nat)
    requires i < |s| && IsDigit(s[i])
    ensures SkipDigits(s, i) == SkipDigits(s, i + 1)
  {
  }

  lemma SignedStart(n: int)
    ensures Signed(n) != [] && !IsBlank(Signed(n)[0]) && Signed(n)[0] != NUL
  {
    if n >= 0 {
      DecimalReads(n);
    }
  }

  lemma EqualsScan(s: seq<Byte>, i: nat, c: Cursor, rest: seq<Byte>)
    requires i <= |s| && s[i..] == [EQUALS] + ([SPACE] + rest) && Gap([SPACE], rest)
    ensures i + 2 <= |s| && s[i + 2..] == rest
    ensures Scan(s, false, true, i, c) == Scan(s, false, true, i + 2, c)
  {
    hide SkipBlanks;
    AfterPrefix(s, i, [EQUALS], [SPACE] + rest);
    GapSkipped(s, i + 1, [SPACE], rest);
    NothingBefore(Scan(s, false, true, i + 2, c));
  }

  predicate NonNegative(t: Stamp) {
    t.sz >= 0 && t.sec >= 0 && t.nsec >= 0
  }

  /** The numbers fit a long long. */
  predicate Bounded(t: Stamp) {
    t.sz <= LLONG_MAX && t.sec <= LLONG_MAX && t.nsec <= LLONG_MAX
  }

  lemma LastScan(s: seq<Byte>, i: nat, c: Cursor)
    requires i <= |s| && s[i..] == [NEWLINE, NUL]
    ensures Scan(s, false, true, i, c) == EndOfLine(false, c)
  {
    assert s[i] == s[i..][0];
  }

  /** The three numbers of a stamp. */
  lemma NumbersScan(s: seq<Byte>, i: nat, t: Stamp)
    requires i <= |s| && s[i..] == NumbersText(t) + [NUL] && Bounded(t)
    ensures Scan(s, false, true, i, Cursor(Some(t.name), false, false, [])) ==
      if NonNegative(t) then Actions([AddStamp(t)]) else Rejected
  {
    hide Scan, Signed;
    var end := [NEWLINE, NUL];
    var n3 := Signed(t.nsec) + ([] + end);
    var n2 := Signed(t.sec) + ([SPACE] + n3);
    SignedStart(t.sec);
    SignedStart(t.nsec);
    var c := Cursor(Some(t.name), false, false, []);
    assert s[i..] == Signed(t.sz) + ([SPACE] + n2);
    NumberScan(s, i, t.sz, [SPACE], n2, c);
    var i2, c2 := i + |Signed(t.sz)| + 1, c.(nums := [t.sz]);
    NumberScan(s, i2, t.sec, [SPACE], n3, c2);
    var i3, c3 := i2 + |Signed(t.sec)| + 1, c.(nums := [t.sz, t.sec]);
    NumberScan(s, i3, t.nsec, [], end, c3);
    var c4 := c.(nums := [t.sz, t.sec, t.nsec]);
    LastScan(s, i3 + |Signed(t.nsec)|, c4);
    assert c.nums + [t.sz] == c2.nums && c2.nums + [t.sec] == c3.nums && c3.nums + [t.nsec] == c4.nums;
  }

  /** A stamp line gives its stamp back, and fails the parse when one of its numbers is negative. */
  lemma StampScan(s: seq<Byte>, t: Stamp)
    requires s == StampText(t) + [NUL] && NUL !in t.name && Bounded(t)
    ensures Scan(s, false, true, 0, NEW_LINE) == if NonNegative(t) then Actions([AddStamp(t)]) else Rejected
  {
    hide Scan, Quoted, NumbersText;
    var numbers := NumbersText(t) + [NUL];
    NumbersStart(t);
    assert s[0..] == Quoted(t.name) + ([SPACE] + ([EQUALS] + ([SPACE] + numbers)));
    StringScan(s, false, true, 0, NEW_LINE, t.name, [SPACE], [EQUALS] + ([SPACE] + numbers));
    var i := |Quoted(t.name)| + 1;
    var c := Cursor(Some(t.name), false, false, []);
    EqualsScan(s, i, c, numbers);
    NumbersScan(s, i + 2, t);
    NothingBefore(Scan(s, false, true, i, c));
  }

  lemma NumbersStart(t: Stamp)
    ensures NumbersText(t) != [] && !IsBlank(NumbersText(t)[0]) && NumbersText(t)[0] != NUL
  {
    SignedStart(t.sz);
  }

  // Lines

  predicate Clean(s: seq<Byte>) {
    forall k | 0 <= k < |s| :: s[k] != NEWLINE
  }

  predicate OneLine(s: seq<Byte>) {
    s != [] && s[|s| - 1] == NEWLINE && forall k | 0 <= k < |s| - 1 :: s[k] != NEWLINE
  }

  lemma {:induction false} EscapedAllClean(s: seq<Byte>)
    ensures Clean(EscapedAll(s)) && forall k | 0 <= k < |EscapedAll(s)| :: 32 <= EscapedAll(s)[k] <= 126
    decreases |s|
  {
    if s != [] {
      EscapedAllClean(s[1..]);
      assert forall k | 0 <= k < |Escaped(s[0])| :: 32 <= Escaped(s[0])[k] <= 126;
    }
  }

  lemma QuotedClean(s: seq<Byte>)
    ensures Clean(Quoted(s))
  {
    EscapedAllClean(s);
  }

  lemma OneLineAfter(a: seq<Byte>, b: seq<Byte>)
    requires Clean(a) && OneLine(b)
    ensures OneLine(a + b)
  {
  }

  lemma SignedClean(n: int)
    ensures Clean(Signed(n))
  {
    var d := Decimal(if n < 0 then -n else n);
    DecimalReads(if n < 0 then -n else n);
  }

  lemma {:induction false} ArgsOneLine(args: seq<seq<Byte>>)
    ensures OneLine(ArgsText(args))
    decreases |args|
  {
    hide Quoted;
    if args != [] {
      ArgsOneLine(args[1..]);
      OneLineAfter(if |args| == 1 then [] else [SPACE], ArgsText(args[1..]));
      QuotedClean(args[0]);
      OneLineAfter(Quoted(args[0]), (if |args| == 1 then [] else [SPACE]) + ArgsText(args[1..]));
    }
  }

  lemma HeadOneLine(e: Entry)
    ensures OneLine(HeadText(e))
  {
    hide Quoted;
    QuotedClean(e.tgt);
    OneLineAfter(Quoted(e.tgt), [COLON, NEWLINE]);
    OneLineAfter([SPACE], Quoted(e.tgt) + [COLON, NEWLINE]);
    QuotedClean(e.dir);
    OneLineAfter(Quoted(e.dir), [SPACE] + (Quoted(e.tgt) + [COLON, NEWLINE]));
  }

  lemma StampOneLine(t: Stamp)
    ensures OneLine(StampText(t))
  {
    hide Quoted, Signed;
    SignedClean(t.nsec);
    SignedClean(t.sec);
    SignedClean(t.sz);
    var n3 := Signed(t.nsec) + [NEWLINE];
    OneLineAfter(Signed(t.nsec), [NEWLINE]);
    OneLineAfter([SPACE], n3);
    OneLineAfter(Signed(t.sec), [SPACE] + n3);
    var n2 := Signed(t.sec) + ([SPACE] + n3);
    OneLineAfter([SPACE], n2);
    OneLineAfter(Signed(t.sz), [SPACE] + n2);
    OneLineAfter([SPACE], NumbersText(t));
    OneLineAfter([EQUALS], [SPACE] + NumbersText(t));
    OneLineAfter([SPACE], [EQUALS] + ([SPACE] + NumbersText(t)));
    QuotedClean(t.name);
    OneLineAfter(Quoted(t.name), [SPACE] + ([EQUALS] + ([SPACE] + NumbersText(t))));
  }

  lemma {:induction false} OneFirstLine(l: seq<Byte>, rest: seq<Byte>)
    requires OneLine(l)
    ensures FirstLine(l + rest) == |l|
    decreases |l|
  {
    assert (l + rest)[0] == l[0];
    if |l| > 1 {
      assert (l + rest)[1..] == l[1..] + rest;
      OneFirstLine(l[1..], rest);
    }
  }

  /** The parser takes a file line by line. */
  lemma FileStep(r: Reader, l: seq<Byte>, rest: seq<Byte>)
    requires OneLine(l)
    ensures var p := ReadLine(r, l + [NUL]);
      ReadFile(r, l + rest) == if p.Going? then ReadFile(p.r, rest) else p
  {
    hide ReadLine;
    OneFirstLine(l, rest);
    assert (l + rest)[..|l|] == l && (l + rest)[|l|..] == rest;
  }

  lemma BlankLine(r: Reader)
    requires !r.firstLine
    ensures ReadLine(r, [NEWLINE, NUL]) ==
      if !r.wasCmd then Going(r) else if r.rule == None then Undefined else Going(Post(r).r.(wasCmd := false))
  {
    var s := [NEWLINE, NUL];
    assert s != V2_LINE + [NUL] && s != V1_LINE + [NUL];
    assert Scan(s, false, r.v2, 0, NEW_LINE) == Actions([]);
  }

  lemma {:induction false} ArgsApplied(r: Reader, done: seq<seq<Byte>>, args: seq<seq<Byte>>,
        before: seq<seq<seq<Byte>>>)
    requires r.cmds == before + [done]
    ensures Apply(r, AddArgs(args)) == r.(cmds := before + [done + args])
    decreases |args|
  {
    if args == [] {
      assert done + args == done;
    } else {
      var q := r.(cmds := before + [done + [args[0]]]);
      assert r.cmds[|r.cmds| - 1 := done + [args[0]]] == q.cmds;
      ArgsApplied(q, done + [args[0]], args[1..], before);
      assert done + [args[0]] + args[1..] == done + args;
      assert AddArgs(args)[1..] == AddArgs(args[1..]);
    }
  }

  lemma CommandLine(r: Reader, args: seq<seq<Byte>>)
    requires !r.firstLine && NulFree(args)
    ensures ReadLine(r, [TAB] + ArgsText(args) + [NUL]) == Going(r.(wasCmd := true, cmds := r.cmds + [args]))
  {
    hide Scan, ArgsText;
    var s := [TAB] + ArgsText(args) + [NUL];
    ArgsStart(args);
    assert s[1..] == ArgsText(args) + [NUL];
    assert SkipBlanks(s, 0) == SkipBlanks(s, 1) == 1;
    ArgsScan(s, r.v2, 1, args);
    ArgsApplied(r.(cmds := r.cmds + [[]], wasCmd := true), [], args, r.cmds);
    assert [] + args == args;
  }

  lemma HeadLine(r: Reader, e: Entry)
    requires !r.firstLine && !r.wasCmd && NUL !in e.dir && NUL !in e.tgt
    ensures ReadLine(r, HeadText(e) + [NUL]) == Going(r.(rule := Some((e.dir, e.tgt)), cmds := []))
  {
    hide Scan;
    var s := HeadText(e) + [NUL];
    assert s[0] == QUOTE;
    HeadScan(s, r.v2, e);
    var acts := [OpenRule(e.dir, e.tgt)];
    assert acts[1..] == [];
    assert Apply(r, acts) == r.(rule := Some((e.dir, e.tgt)), cmds := []);
  }

  lemma StampLine(r: Reader, t: Stamp)
    requires !r.firstLine && !r.wasCmd && r.v2 && NUL !in t.name && Bounded(t)
    ensures ReadLine(r, StampText(t) + [NUL]) == if NonNegative(t) then Going(r.(stamps := r.stamps + [t])) else Failed
  {
    hide Scan;
    var s := StampText(t) + [NUL];
    assert s[0] == QUOTE;
    StampScan(s, t);
    var acts := [AddStamp(t)];
    assert acts[1..] == [];
    assert Apply(r, acts) == r.(stamps := r.stamps + [t]);
  }

  // Files

  lemma CommandOneLine(args: seq<seq<Byte>>)
    ensures OneLine([TAB] + ArgsText(args))
  {
    hide ArgsText;
    ArgsOneLine(args);
    OneLineAfter([TAB], ArgsText(args));
  }

  lemma {:induction false} CmdsRead(r: Reader, cmds: seq<seq<seq<Byte>>>, rest: seq<Byte>)
    requires !r.firstLine && forall k | 0 <= k < |cmds| :: NulFree(cmds[k])
    ensures ReadFile(r, CmdsText(cmds) + rest) ==
      ReadFile(r.(wasCmd := r.wasCmd || cmds != [], cmds := r.cmds + cmds), rest)
    decreases |cmds|
  {
    hide ReadFile, ReadLine, ArgsText, OneLine, Clean;
    if cmds == [] {
      assert CmdsText(cmds) + rest == rest && r.cmds + cmds == r.cmds;
    } else {
      var l, more := [TAB] + ArgsText(cmds[0]), CmdsText(cmds[1..]) + rest;
      CommandOneLine(cmds[0]);
      assert CmdsText(cmds) + rest == l + more;
      FileStep(r, l, more);
      CommandLine(r, cmds[0]);
      CmdsRead(r.(wasCmd := true, cmds := r.cmds + [cmds[0]]), cmds[1..], rest);
      assert r.cmds + [cmds[0]] + cmds[1..] == r.cmds + cmds;
    }
  }

  /** A reader between two blocks of a version 2 file. */
  predicate Ready(r: Reader) {
    !r.firstLine && r.v2 && (r.wasCmd ==> r.rule.Some?)
  }

  /** The entries reported once the current one is finished. */
  function Flushed(r: Reader): seq<Entry>
    requires Ready(r)
  {
    if r.wasCmd then Post(r).r.entries else r.entries
  }

  predicate EntryOk(e: Entry) {
    NUL !in e.dir && NUL !in e.tgt && forall k | 0 <= k < |e.cmds| :: NulFree(e.cmds[k])
  }

  /** The entries that have a command. */
  function Kept(es: seq<Entry>): seq<Entry> {
    if es == [] then [] else (if es[0].cmds == [] then [] else [es[0]]) + Kept(es[1..])
  }

  /** An empty line finishes the current entry. */
  lemma BlockStarts(r: Reader, rest: seq<Byte>) returns (q: Reader)
    requires Ready(r)
    ensures Ready(q) && !q.wasCmd && q.entries == Flushed(r) && q.stamps == r.stamps
    ensures ReadFile(r, [NEWLINE] + rest) == ReadFile(q, rest)
  {
    hide ReadFile;
    FileStep(r, [NEWLINE], rest);
    BlankLine(r);
    assert [NEWLINE] + [NUL] == [NEWLINE, NUL];
    q := ReadLine(r, [NEWLINE, NUL]).r;
  }

  /** One entry, after the empty line before it. */
  lemma EntryRead(r: Reader, e: Entry, rest: seq<Byte>) returns (q: Reader)
    requires Ready(r) && EntryOk(e)
    ensures Ready(q) && q.stamps == r.stamps && Flushed(q) == Flushed(r) + (if e.cmds == [] then [] else [e])
    ensures ReadFile(r, [NEWLINE] + (HeadText(e) + (CmdsText(e.cmds) + rest))) == ReadFile(q, rest)
  {
    hide ReadFile, ReadLine, HeadText, CmdsText, OneLine;
    var body := CmdsText(e.cmds) + rest;
    var a := BlockStarts(r, HeadText(e) + body);
    HeadOneLine(e);
    FileStep(a, HeadText(e), body);
    HeadLine(a, e);
    var b := a.(rule := Some((e.dir, e.tgt)), cmds := []);
    CmdsRead(b, e.cmds, rest);
    q := b.(wasCmd := e.cmds != [], cmds := b.cmds + e.cmds);
    assert b.cmds + e.cmds == e.cmds;
  }

  lemma EntriesSplit(es: seq<Entry>, rest: seq<Byte>)
    requires es != []
    ensures EntriesText(es) + rest ==
      [NEWLINE] + (HeadText(es[0]) + (CmdsText(es[0].cmds) + (EntriesText(es[1..]) + rest)))
  {
    hide HeadText, CmdsText;
    var h, c, m := HeadText(es[0]), CmdsText(es[0].cmds), EntriesText(es[1..]);
    Regroup([NEWLINE], h + (c + m), rest);
    Regroup(h, c + m, rest);
    Regroup(c, m, rest);
  }

  lemma {:induction false} EntriesRead(r: Reader, es: seq<Entry>, rest: seq<Byte>) returns (q: Reader)
    requires Ready(r) && forall k | 0 <= k < |es| :: EntryOk(es[k])
    ensures Ready(q) && q.stamps == r.stamps && Flushed(q) == Flushed(r) + Kept(es)
    ensures ReadFile(r, EntriesText(es) + rest) == ReadFile(q, rest)
    decreases |es|
  {
    hide ReadFile, EntriesText, EntryOk, Ready, Flushed;
    if es == [] {
      q := r;
      NoEntries(es, rest);
      assert Flushed(r) + [] == Flushed(r);
    } else {
      EntriesSplit(es, rest);
      var c := EntryRead(r, es[0], EntriesText(es[1..]) + rest);
      q := EntriesRead(c, es[1..], rest);
      Regroup(Flushed(r), if es[0].cmds == [] then [] else [es[0]], Kept(es[1..]));
    }
  }

  lemma NoEntries(es: seq<Entry>, rest: seq<Byte>)
    requires es == []
    ensures EntriesText(es) + rest == rest
  {
  }

  predicate AllNonNegative(ts: seq<Stamp>) {
    forall k | 0 <= k < |ts| :: NonNegative(ts[k])
  }

  predicate StampsOk(ts: seq<Stamp>) {
    forall k | 0 <= k < |ts| :: NUL !in ts[k].name && Bounded(ts[k])
  }

  lemma StampsTail(ts: seq<Stamp>)
    requires ts != [] && StampsOk(ts)
    ensures AllNonNegative(ts) <==> NonNegative(ts[0]) && AllNonNegative(ts[1..])
    ensures NUL !in ts[0].name && Bounded(ts[0]) && StampsOk(ts[1..])
  {
    assert forall k | 0 < k < |ts| :: ts[k] == ts[1..][k - 1];
  }

  /** At the end of the file the last entry is finished. */
  lemma EndRead(r: Reader)
    requires Ready(r)
    ensures ReadFile(r, []) == if r.wasCmd then Post(r) else Going(r)
    ensures ReadFile(r, []).Going? && ReadFile(r, []).r.entries == Flushed(r) && ReadFile(r, []).r.stamps == r.stamps
  {
  }

  lemma {:induction false} StampsRead(r: Reader, ts: seq<Stamp>)
    requires Ready(r) && StampsOk(ts)
    ensures var p := ReadFile(r, StampsText(ts));
      if AllNonNegative(ts) then p.Going? && p.r.entries == Flushed(r) && p.r.stamps == r.stamps + ts
      else p == Failed
    decreases |ts|
  {
    hide ReadFile, ReadLine, StampText, StampsOk, AllNonNegative, NonNegative, Bounded;
    if ts == [] {
      EndRead(r);
      NoStamps(ts);
      assert r.stamps + ts == r.stamps;
    } else {
      var t, more := ts[0], StampsText(ts[1..]);
      var a := BlockStarts(r, StampText(t) + more);
      StampOneLine(t);
      FileStep(a, StampText(t), more);
      StampsTail(ts);
      StampLine(a, t);
      if NonNegative(t) {
        StampsRead(a.(stamps := a.stamps + [t]), ts[1..]);
        assert a.stamps + [t] + ts[1..] == r.stamps + ts;
      }
    }
  }

  lemma NoStamps(ts: seq<Stamp>)
    requires ts == []
    ensures StampsText(ts) == [] && AllNonNegative(ts)
  {
  }

  lemma VersionLine(rest: seq<Byte>)
    ensures ReadFile(NEW_READER, V2_LINE + rest) == ReadFile(NEW_READER.(v2 := true, firstLine := false), rest)
  {
    hide ReadFile;
    FileStep(NEW_READER, V2_LINE, rest);
  }

  /** Whole file round trip, exactly: reading back a printed database succeeds just when no number is negative, and
      then gives every entry that has a command and every stamp, in order. */
  lemma FileReads(es: seq<Entry>, ts: seq<Stamp>)
    requires forall k | 0 <= k < |es| :: EntryOk(es[k])
    requires StampsOk(ts)
    ensures var p := ReadFile(NEW_READER, FileText(es, ts));
      if AllNonNegative(ts) then p.Going? && p.r.entries == Kept(es) && p.r.stamps == ts else p == Failed
  {
    hide ReadFile;
    var r := NEW_READER.(v2 := true, firstLine := false);
    if es == [] && ts == [] {
      VersionLine([NEWLINE]);
      var q := BlockStarts(r, []);
      assert [NEWLINE] + [] == [NEWLINE];
      StampsRead(q, []);
    } else {
      VersionLine(EntriesText(es) + StampsText(ts));
      var q := EntriesRead(r, es, StampsText(ts));
      StampsRead(q, ts);
      assert Flushed(r) + Kept(es) == Kept(es) && r.stamps + ts == ts;
    }
  }

  lemma {:induction false} KeptAll(es: seq<Entry>)
    ensures |Kept(es)| <= |es|
    ensures Kept(es) == es <==> forall k | 0 <= k < |es| :: es[k].cmds != []
    decreases |es|
  {
    if es != [] {
      KeptAll(es[1..]);
      assert es == [es[0]] + es[1..];
      if es[0].cmds != [] {
        assert Kept(es)[1..] == Kept(es[1..]);
        assert forall k | 0 < k < |es| :: es[k] == es[1..][k - 1];
      }
    }
  }

  /** A database survives being written and read exactly when every entry has a command and no number is negative. */
  lemma Survives(es: seq<Entry>, ts: seq<Stamp>)
    requires forall k | 0 <= k < |es| :: EntryOk(es[k])
    requires StampsOk(ts)
    ensures var p := ReadFile(NEW_READER, FileText(es, ts));
      (p.Going? && p.r.entries == es && p.r.stamps == ts) <==>
      (AllNonNegative(ts) && forall k | 0 <= k < |es| :: es[k].cmds != [])
  {
    FileReads(es, ts);
    KeptAll(es);
  }
}
