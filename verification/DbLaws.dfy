/** What lines of the database file mean that are not laid out as they are printed, and which lines fail. */
module DbLaws {
  import opened Options
  import opened Bytes
  import opened Literal
  import opened DbFormat
  import opened DbRoundTrip

  /** A text that goes on with something other than a blank or its end. */
  predicate GoesOn(rest: seq<Byte>) {
    rest != [] && rest[0] != 32 && rest[0] != 9 && rest[0] != 0
  }

  lemma {:induction false} BlanksPast(s: seq<Byte>, i: nat, b: seq<Byte>, rest: seq<Byte>)
    requires i <= |s| && s[i..] == b + rest && Blanks(b) && GoesOn(rest)
    ensures SkipBlanks(s, i) == i + |b| < |s| && s[i + |b|..] == rest && s[i + |b|] == rest[0]
    ensures b == [] ==> s[i] == rest[0]
    ensures b != [] ==> IsBlank(s[i])
    decreases |b|
  {
    AfterPrefix(s, i, b, rest);
    if b == [] {
      assert s[i] == s[i..][0];
    } else {
      assert s[i] == s[i..][0] == b[0];
      assert s[i + 1..] == b[1..] + rest;
      BlanksPast(s, i + 1, b[1..], rest);
    }
  }

  // Tokens

  /** A string, before blanks or before a character that may follow it directly. */
  lemma StringToken(s: seq<Byte>, isCmd: bool, v2: bool, i: nat, c: Cursor, str: seq<Byte>, b: seq<Byte>,
                    rest: seq<Byte>)
    requires i <= |s| && s[i..] == Quoted(str) + (b + rest) && NUL !in str && !c.two && Blanks(b) && GoesOn(rest)
    requires b == [] ==> rest[0] in {10, 58, 61}
    ensures var j := i + |Quoted(str)| + |b|;
      j <= |s| && s[j..] == rest && Scan(s, isCmd, v2, i, c) ==
        if isCmd then Prefixed([AddArg(str)], Scan(s, isCmd, v2, j, c))
        else if c.first.Some? then
          Prefixed([OpenRule(c.first.value, str)], Scan(s, isCmd, v2, j, c.(first := None, two := true)))
        else Scan(s, isCmd, v2, j, c.(first := Some(str)))
  {
    hide Quoted, DecodeAt, SkipBlanks, Scan, StepAt, Blanks;
    QuotedReads(s, i, str, b + rest);
    BlanksPast(s, i + |Quoted(str)|, b, rest);
    StringStep(s, isCmd, v2, i, c, str, i + |Quoted(str)|);
    WholeCString(str);
    NothingBefore(Scan(s, isCmd, v2, i + |Quoted(str)| + |b|, c.(first := Some(str))));
  }

  /** A string may not be followed directly by anything but a newline, a colon or an equals sign. */
  lemma GluedString(s: seq<Byte>, isCmd: bool, v2: bool, i: nat, c: Cursor, str: seq<Byte>, rest: seq<Byte>)
    requires i <= |s| && s[i..] == Quoted(str) + rest && NUL !in str && !c.two && rest != []
    requires rest[0] !in {0, 9, 10, 32, 58, 61}
    ensures Scan(s, isCmd, v2, i, c) == Rejected
  {
    hide Quoted, DecodeAt;
    QuotedReads(s, i, str, rest);
  }

  /** On a line with two strings a third one fails. */
  lemma ThirdString(s: seq<Byte>, isCmd: bool, v2: bool, i: nat, c: Cursor)
    requires i < |s| && s[i] == 34 && c.two
    ensures Scan(s, isCmd, v2, i, c) == Rejected
  {
  }

  /** A colon is for after the second string. */
  lemma ColonToken(s: seq<Byte>, v2: bool, i: nat, c: Cursor, b: seq<Byte>, rest: seq<Byte>)
    requires i <= |s| && s[i..] == [58] + (b + rest) && Blanks(b) && GoesOn(rest)
    ensures !c.two ==> Scan(s, false, v2, i, c) == Rejected
    ensures c.two ==> var j := i + 1 + |b|;
      j <= |s| && s[j..] == rest && Scan(s, false, v2, i, c) == Scan(s, false, v2, j, c.(colon := true))
  {
    hide SkipBlanks, Blanks, GoesOn, Scan, StepAt;
    AfterPrefix(s, i, [58], b + rest);
    assert s[i] == s[i..][0];
    BlanksPast(s, i + 1, b, rest);
    NotAtEnd(rest);
    ColonStep(s, v2, i, c);
  }

  lemma ColonStep(s: seq<Byte>, v2: bool, i: nat, c: Cursor)
    requires i < |s| && s[i] == 58 && SkipBlanks(s, i + 1) < |s| && s[SkipBlanks(s, i + 1)] != NUL
    ensures Scan(s, false, v2, i, c) ==
      if c.two then Scan(s, false, v2, SkipBlanks(s, i + 1), c.(colon := true)) else Rejected
  {
    hide SkipBlanks;
    NothingBefore(Scan(s, false, v2, SkipBlanks(s, i + 1), c.(colon := true)));
  }

  lemma NotAtEnd(rest: seq<Byte>)
    requires GoesOn(rest)
    ensures rest != [] && rest[0] != NUL
  {
  }

  /** An equals sign is for the second version only. */
  lemma EqualsToken(s: seq<Byte>, v2: bool, i: nat, c: Cursor, b: seq<Byte>, rest: seq<Byte>)
    requires i <= |s| && s[i..] == [61] + (b + rest) && Blanks(b) && GoesOn(rest)
    ensures !v2 ==> Scan(s, false, v2, i, c) == Rejected
    ensures v2 ==> var j := i + 1 + |b|;
      j <= |s| && s[j..] == rest && Scan(s, false, v2, i, c) == Scan(s, false, v2, j, c)
  {
    hide SkipBlanks, Blanks, GoesOn, Scan, StepAt;
    AfterPrefix(s, i, [61], b + rest);
    assert s[i] == s[i..][0];
    BlanksPast(s, i + 1, b, rest);
    NotAtEnd(rest);
    EqualsStep(s, v2, i, c);
  }

  lemma EqualsStep(s: seq<Byte>, v2: bool, i: nat, c: Cursor)
    requires i < |s| && s[i] == 61 && SkipBlanks(s, i + 1) < |s| && s[SkipBlanks(s, i + 1)] != NUL
    ensures Scan(s, false, v2, i, c) == if v2 then Scan(s, false, v2, SkipBlanks(s, i + 1), c) else Rejected
  {
    hide SkipBlanks;
    NothingBefore(Scan(s, false, v2, SkipBlanks(s, i + 1), c));
  }

  /** A number, whose value is at most the largest long long; numbers are for the second version only, and there are at
      most three. */
  lemma NumberToken(s: seq<Byte>, v2: bool, i: nat, c: Cursor, n: nat, b: seq<Byte>, rest: seq<Byte>)
    requires i <= |s| && s[i..] == Decimal(n) + (b + rest) && Blanks(b) && GoesOn(rest)
    requires b == [] ==> !(48 <= rest[0] <= 57)
    ensures !v2 || |c.nums| >= 3 ==> Scan(s, false, v2, i, c) == Rejected
    ensures v2 && |c.nums| < 3 ==>
      var j, v := i + |Decimal(n)| + |b|, if n > 9223372036854775807 then 9223372036854775807 else n;
      j <= |s| && s[j..] == rest && Scan(s, false, v2, i, c) == Scan(s, false, v2, j, c.(nums := c.nums + [v]))
  {
    hide SkipBlanks, Decimal, DecimalValue, SkipDigits, AllDigits, Scan, StepAt, Blanks, GoesOn;
    AfterPrefix(s, i, Decimal(n), b + rest);
    var end := i + |Decimal(n)|;
    BlanksPast(s, end, b, rest);
    NotAtEnd(rest);
    DecimalReads(n);
    DecimalStart(n);
    assert s[i] == s[i..][0];
    AfterNumber(b, rest);
    DigitsEnd(s, i, Decimal(n), b + rest);
    FirstDigit(s, i);
    if v2 && |c.nums| < 3 {
      var v := Strtoll(s[i..end]);
      DigitStep(s, i, end, v, c);
      NothingBefore(Scan(s, false, true, end + |b|, c.(nums := c.nums + [v])));
    } else {
      NoNumber(s, v2, i, c);
    }
  }

  lemma DecimalStart(n: nat)
    ensures AllDigits(Decimal(n)) && IsDigit(Decimal(n)[0])
  {
    DecimalReads(n);
  }

  lemma AfterNumber(b: seq<Byte>, rest: seq<Byte>)
    requires Blanks(b) && GoesOn(rest) && (b == [] ==> !(48 <= rest[0] <= 57))
    ensures b + rest != [] && !IsDigit((b + rest)[0])
  {
    assert b != [] ==> (b + rest)[0] == b[0];
  }

  lemma NoNumber(s: seq<Byte>, v2: bool, i: nat, c: Cursor)
    requires i < |s| && IsDigit(s[i]) && (!v2 || |c.nums| >= 3)
    ensures Scan(s, false, v2, i, c) == Rejected
  {
  }

  /** A character that begins no token. */
  lemma StrayCharacter(s: seq<Byte>, isCmd: bool, v2: bool, i: nat, c: Cursor)
    requires i < |s| && s[i] !in {0, 10, 34, 58, 61} && !(48 <= s[i] <= 57)
    ensures Scan(s, isCmd, v2, i, c) == Rejected
  {
  }

  // Lines

  /** The end of a line that is no command: three numbers need a name to make a stamp; without numbers a pending name
      fails; with one or two numbers the line must have two names and a colon. */
  lemma LineEnds(s: seq<Byte>, v2: bool, i: nat, c: Cursor)
    requires i < |s| && s[i] == 10
    ensures |c.nums| == 3 && c.first.Some? ==>
      Scan(s, false, v2, i, c) == Actions([AddStamp(Stamp(c.first.value, c.nums[0], c.nums[1], c.nums[2]))])
    ensures |c.nums| == 3 && c.first.None? ==> Scan(s, false, v2, i, c) == Nameless
    ensures c.nums == [] && c.first.None? ==> Scan(s, false, v2, i, c) == Actions([])
    ensures |c.nums| != 3 && (c.nums != [] || c.first.Some?) ==>
      Scan(s, false, v2, i, c) == if c.two && c.colon then Actions([]) else Rejected
  {
  }

  /** The end of a command line, whatever stands on it besides its strings. */
  lemma CommandEnds(s: seq<Byte>, v2: bool, i: nat, c: Cursor)
    requires i < |s| && (s[i] == 10 || s[i] == 0)
    ensures Scan(s, true, v2, i, c) == Actions([])
  {
  }

  lemma {:induction false} BlanksToEnd(s: seq<Byte>, i: nat, b: seq<Byte>, rest: seq<Byte>)
    requires i <= |s| && s[i..] == b + rest && Blanks(b) && rest != [] && rest[0] == 0
    ensures SkipBlanks(s, i) == i + |b| < |s| && s[i + |b|] == 0
    ensures b == [] ==> s[i] == 0
    ensures b != [] ==> IsBlank(s[i])
    decreases |b|
  {
    AfterPrefix(s, i, b, rest);
    if b == [] {
      assert s[i] == s[i..][0];
    } else {
      assert s[i] == s[i..][0] == b[0];
      assert s[i + 1..] == b[1..] + rest;
      BlanksToEnd(s, i + 1, b[1..], rest);
    }
  }

  /** A last line without a newline: its last string is not taken, and nothing fails. */
  lemma StringLast(s: seq<Byte>, isCmd: bool, v2: bool, i: nat, c: Cursor, str: seq<Byte>, b: seq<Byte>,
                   rest: seq<Byte>)
    requires i <= |s| && s[i..] == Quoted(str) + (b + rest) && NUL !in str && !c.two && Blanks(b)
    requires rest != [] && rest[0] == 0
    ensures Scan(s, isCmd, v2, i, c) == Actions([])
  {
    hide Quoted, DecodeAt, SkipBlanks, Blanks;
    QuotedReads(s, i, str, b + rest);
    BlanksToEnd(s, i + |Quoted(str)|, b, rest);
    LastStep(s, isCmd, v2, i, c, str, i + |Quoted(str)|);
  }

  lemma LastStep(s: seq<Byte>, isCmd: bool, v2: bool, i: nat, c: Cursor, str: seq<Byte>, end: nat)
    requires i < end < |s| && s[i] == 34 && DecodeAt(s, i + 1) == Read(str, end) && !c.two
    requires SkipBlanks(s, end) < |s| && s[SkipBlanks(s, end)] == 0 && (s[end] == 0 || IsBlank(s[end]))
    ensures Scan(s, isCmd, v2, i, c) == Actions([])
  {
    hide DecodeAt, SkipBlanks;
  }

  /** A last line without a newline makes no stamp. */
  lemma NumberLast(s: seq<Byte>, i: nat, c: Cursor, n: nat, b: seq<Byte>, rest: seq<Byte>)
    requires i <= |s| && s[i..] == Decimal(n) + (b + rest) && Blanks(b) && rest != [] && rest[0] == 0
    requires |c.nums| < 3
    ensures Scan(s, false, true, i, c) == Actions([])
  {
    hide SkipBlanks, Decimal, DecimalValue, SkipDigits, AllDigits, Scan, Blanks;
    AfterPrefix(s, i, Decimal(n), b + rest);
    var end := i + |Decimal(n)|;
    BlanksToEnd(s, end, b, rest);
    DecimalReads(n);
    DecimalStart(n);
    assert s[i] == s[i..][0];
    AtBlankOrEnd(b, rest);
    DigitsEnd(s, i, Decimal(n), b + rest);
    FirstDigit(s, i);
    NumberStops(s, i, end, c);
  }

  lemma AtBlankOrEnd(b: seq<Byte>, rest: seq<Byte>)
    requires Blanks(b) && rest != [] && rest[0] == 0
    ensures b + rest != [] && !IsDigit((b + rest)[0])
  {
    assert b != [] ==> (b + rest)[0] == b[0];
  }

  lemma NumberStops(s: seq<Byte>, i: nat, end: nat, c: Cursor)
    requires i < end <= |s| && IsDigit(s[i]) && SkipDigits(s, i + 1) == end && |c.nums| < 3
    requires SkipBlanks(s, end) < |s| && s[SkipBlanks(s, end)] == 0
    ensures Scan(s, false, true, i, c) == Actions([])
  {
    hide SkipBlanks, SkipDigits, DecodeAt;
  }

  /** Two names open an entry, however they are spaced, with a colon after them or without. */
  lemma AnyHead(s: seq<Byte>, v2: bool, dir: seq<Byte>, tgt: seq<Byte>, b1: seq<Byte>, b2: seq<Byte>, b3: seq<Byte>,
                tail: seq<Byte>)
    requires NUL !in dir && NUL !in tgt && Blanks(b1) && Blanks(b2) && Blanks(b3) && b1 != []
    requires s[0..] == Quoted(dir) + (b1 + (Quoted(tgt) + (b2 + tail)))
    requires tail == [10, 0] || tail == [58] + (b3 + [10, 0])
    ensures Scan(s, false, v2, 0, NEW_LINE) == Actions([OpenRule(dir, tgt)])
  {
    hide Scan, Quoted, Blanks;
    TwoNames(s, v2, dir, tgt, b1, b2, tail);
    HeadEnds(s, v2, |Quoted(dir)| + |b1| + |Quoted(tgt)| + |b2|, NEW_LINE.(two := true), b3, tail);
  }

  lemma TwoNames(s: seq<Byte>, v2: bool, dir: seq<Byte>, tgt: seq<Byte>, b1: seq<Byte>, b2: seq<Byte>, tail: seq<Byte>)
    requires NUL !in dir && NUL !in tgt && Blanks(b1) && Blanks(b2) && b1 != []
    requires s[0..] == Quoted(dir) + (b1 + (Quoted(tgt) + (b2 + tail))) && tail != []
    requires (tail[0] == 10 || tail[0] == 58)
    ensures var j := |Quoted(dir)| + |b1| + |Quoted(tgt)| + |b2|;
      && j <= |s|
      && s[j..] == tail
      && Scan(s, false, v2, 0, NEW_LINE) ==
         Prefixed([OpenRule(dir, tgt)], Scan(s, false, v2, j, NEW_LINE.(two := true)))
  {
    hide Scan, Quoted, Blanks, Prefixed;
    var rest := Quoted(tgt) + (b2 + tail);
    QuotedGoesOn(tgt, b2 + tail);
    StringToken(s, false, v2, 0, NEW_LINE, dir, b1, rest);
    StringToken(s, false, v2, |Quoted(dir)| + |b1|, NEW_LINE.(first := Some(dir)), tgt, b2, tail);
  }

  lemma HeadEnds(s: seq<Byte>, v2: bool, j: nat, c: Cursor, b: seq<Byte>, tail: seq<Byte>)
    requires j <= |s| && Blanks(b) && c == NEW_LINE.(two := true)
    requires s[j..] == tail && (tail == [10, 0] || tail == [58] + (b + [10, 0]))
    ensures Scan(s, false, v2, j, c) == Actions([])
  {
    hide Scan, Blanks;
    if tail != [10, 0] {
      ColonToken(s, v2, j, c, b, [10, 0]);
      AtNewline(s, j + 1 + |b|);
      LineEnds(s, v2, j + 1 + |b|, c.(colon := true));
    } else {
      AtNewline(s, j);
      LineEnds(s, v2, j, c);
    }
  }

  lemma QuotedGoesOn(str: seq<Byte>, rest: seq<Byte>)
    ensures GoesOn(Quoted(str) + rest) && (Quoted(str) + rest)[0] == 34
  {
    hide EscapedAll;
    assert Quoted(str)[0] == 34;
  }

  lemma AtNewline(s: seq<Byte>, i: nat)
    requires i <= |s| && s[i..] == [10, 0]
    ensures i < |s| && s[i] == 10
  {
    assert s[i] == s[i..][0];
  }

  /** One name alone fails. */
  lemma LoneName(s: seq<Byte>, v2: bool, name: seq<Byte>, b: seq<Byte>)
    requires NUL !in name && Blanks(b) && s[0..] == Quoted(name) + (b + [10, 0])
    ensures Scan(s, false, v2, 0, NEW_LINE) == Rejected
  {
    hide Scan, Quoted, Blanks;
    StringToken(s, false, v2, 0, NEW_LINE, name, b, [10, 0]);
    var j := |Quoted(name)| + |b|;
    AtNewline(s, j);
    LineEnds(s, v2, j, NEW_LINE.(first := Some(name)));
  }

  /** The numbers of a stamp, each after blanks of its own. */
  function Spaced(nums: seq<nat>, blanks: seq<seq<Byte>>): seq<Byte>
    requires |nums| == |blanks|
  {
    if nums == [] then [10, 0] else Decimal(nums[0]) + (blanks[0] + Spaced(nums[1..], blanks[1..]))
  }

  /** The values of numbers as far as they are representable. */
  function Values(nums: seq<nat>): (values: seq<int>)
    ensures |values| == |nums|
  {
    if nums == [] then []
    else [if nums[0] > 9223372036854775807 then 9223372036854775807 else nums[0]] + Values(nums[1..])
  }

  predicate Separated(blanks: seq<seq<Byte>>) {
    forall k | 0 <= k < |blanks| :: Blanks(blanks[k]) && (k + 1 < |blanks| ==> blanks[k] != [])
  }

  lemma SpacedStarts(nums: seq<nat>, blanks: seq<seq<Byte>>)
    requires |nums| == |blanks|
    ensures GoesOn(Spaced(nums, blanks)) && (nums == [] ==> Spaced(nums, blanks)[0] == 10)
  {
    if nums != [] {
      DecimalReads(nums[0]);
      assert Spaced(nums, blanks)[0] == Decimal(nums[0])[0];
    }
  }

  function StampOf(name: seq<Byte>, nums: seq<int>): Action
    requires |nums| == 3
  {
    AddStamp(Stamp(name, nums[0], nums[1], nums[2]))
  }

  /** Numbers up to the end of a line: a fourth one fails. */
  lemma {:induction false} NumbersEnd(s: seq<Byte>, i: nat, c: Cursor, nums: seq<nat>, blanks: seq<seq<Byte>>)
    requires |nums| == |blanks| && Separated(blanks) && i <= |s| && s[i..] == Spaced(nums, blanks) && |c.nums| <= 3
    requires c.first.Some?
    ensures |c.nums| + |nums| > 3 ==> Scan(s, false, true, i, c) == Rejected
    ensures |c.nums| + |nums| == 3 ==>
      Scan(s, false, true, i, c) == Actions([StampOf(c.first.value, c.nums + Values(nums))])
    ensures |c.nums| + |nums| < 3 && !c.two ==> Scan(s, false, true, i, c) == Rejected
    decreases |nums|
  {
    hide Scan, Decimal, GoesOn, Blanks, Spaced, Values, Separated;
    if nums == [] {
      NoNumbers(nums, blanks);
      AtNewline(s, i);
      LineEnds(s, true, i, c);
      assert c.nums + Values(nums) == c.nums;
    } else {
      var n, b, rest := nums[0], blanks[0], Spaced(nums[1..], blanks[1..]);
      FirstNumber(nums, blanks);
      NumberToken(s, true, i, c, n, b, rest);
      if |c.nums| < 3 {
        var v := if n > 9223372036854775807 then 9223372036854775807 else n;
        var d := c.(nums := c.nums + [v]);
        NumbersEnd(s, i + |Decimal(n)| + |b|, d, nums[1..], blanks[1..]);
        assert d.nums + Values(nums[1..]) == c.nums + Values(nums);
      }
    }
  }

  lemma NoNumbers(nums: seq<nat>, blanks: seq<seq<Byte>>)
    requires |nums| == |blanks| == 0
    ensures Spaced(nums, blanks) == [10, 0] && Values(nums) == []
  {
  }

  lemma FirstNumber(nums: seq<nat>, blanks: seq<seq<Byte>>)
    requires |nums| == |blanks| > 0 && Separated(blanks)
    ensures var n, b, rest := nums[0], blanks[0], Spaced(nums[1..], blanks[1..]);
      && Spaced(nums, blanks) == Decimal(n) + (b + rest) && Blanks(b) && GoesOn(rest)
      && (b == [] ==> !(48 <= rest[0] <= 57)) && Separated(blanks[1..])
    ensures Values(nums) ==
      [if nums[0] > 9223372036854775807 then 9223372036854775807 else nums[0]] + Values(nums[1..])
  {
    hide Decimal;
    SpacedStarts(nums[1..], blanks[1..]);
  }

  /** A name, an equals sign and numbers, spaced in any way: three numbers make a stamp, any other count fails, and in a
      file of the first version every such line fails. */
  lemma AnyStamp(s: seq<Byte>, v2: bool, name: seq<Byte>, b1: seq<Byte>, b2: seq<Byte>, nums: seq<nat>,
                 blanks: seq<seq<Byte>>)
    requires NUL !in name && Blanks(b1) && Blanks(b2) && |nums| == |blanks| && Separated(blanks)
    requires s[0..] == Quoted(name) + (b1 + ([61] + (b2 + Spaced(nums, blanks))))
    ensures !v2 || |nums| != 3 ==> Scan(s, false, v2, 0, NEW_LINE) == Rejected
    ensures v2 && |nums| == 3 ==> Scan(s, false, v2, 0, NEW_LINE) == Actions([StampOf(name, Values(nums))])
  {
    hide Scan, Quoted, Blanks, Spaced, Values, Separated;
    var tail := Spaced(nums, blanks);
    SpacedStarts(nums, blanks);
    EqualsGoesOn(b2 + tail);
    StringToken(s, false, v2, 0, NEW_LINE, name, b1, [61] + (b2 + tail));
    var i, c := |Quoted(name)| + |b1|, NEW_LINE.(first := Some(name));
    EqualsToken(s, v2, i, c, b2, tail);
    if v2 {
      NumbersEnd(s, i + 1 + |b2|, c, nums, blanks);
      assert c.nums + Values(nums) == Values(nums);
    }
  }

  lemma EqualsGoesOn(rest: seq<Byte>)
    ensures GoesOn([61] + rest) && ([61] + rest)[0] == 61
  {
  }

  // Files

  /** In a file without the version line, or with that of the first version, a stamp makes the parse fail. */
  lemma OldFileKnowsNoStamps(t: Stamp, version: bool)
    requires NUL !in t.name && NonNegative(t)
    ensures ReadFile(NEW_READER, (if version then [64, 118, 49, 64, 10] else [10]) + (StampText(t) + [])) == Failed
  {
    hide ReadFile, ReadLine, StampText, OneLine, Clean;
    var first: seq<Byte> := if version then [64, 118, 49, 64, 10] else [10];
    VersionOneLine(version);
    FileStep(NEW_READER, first, StampText(t) + []);
    OldFirstLine(version);
    StampOneLine(t);
    FileStep(NEW_READER.(firstLine := false), StampText(t), []);
    OldStampLine(t);
  }

  lemma VersionOneLine(version: bool)
    ensures OneLine(if version then [64, 118, 49, 64, 10] else [10])
  {
  }

  lemma OldFirstLine(version: bool)
    ensures var l: seq<Byte> := if version then [64, 118, 49, 64, 10] else [10];
      ReadLine(NEW_READER, l + [NUL]) == Going(NEW_READER.(firstLine := false))
  {
    if version {
      assert [64, 118, 49, 64, 10] + [NUL] == V1_LINE + [NUL];
      assert (V1_LINE + [NUL])[2] != (V2_LINE + [NUL])[2];
    } else {
      var s := [NEWLINE, NUL];
      assert [10] + [NUL] == s && s != V2_LINE + [NUL] && s != V1_LINE + [NUL];
      assert Scan(s, false, false, 0, NEW_LINE) == Actions([]);
    }
  }

  lemma OldStampLine(t: Stamp)
    requires NUL !in t.name && NonNegative(t)
    ensures ReadLine(NEW_READER.(firstLine := false), StampText(t) + [NUL]) == Failed
  {
    hide Scan, Spaced, Quoted;
    var s := StampText(t) + [NUL];
    StampSpaced(t, s);
    AnyStamp(s, false, t.name, [32], [32], [t.sz, t.sec, t.nsec], [[32], [32], []]);
    QuotedGoesOn(t.name, []);
    assert s[0] == 34;
  }

  lemma StampSpaced(t: Stamp, s: seq<Byte>)
    requires NonNegative(t) && s == StampText(t) + [NUL]
    ensures s[0..] == Quoted(t.name) + ([32] + ([61] + ([32] + Spaced([t.sz, t.sec, t.nsec], [[32], [32], []]))))
    ensures s != [] && s[0] == 34
  {
    hide Quoted, Decimal;
    var blanks: seq<seq<Byte>> := [[32], [32], []];
    var nums := [t.sz, t.sec, t.nsec];
    assert nums[1..][0] == t.sec && nums[1..][1..] == nums[2..] && nums[2..][1..] == [];
    assert blanks[1..][0] == [32] && blanks[1..][1..] == blanks[2..];
    assert Spaced(nums[2..], blanks[2..]) == Decimal(t.nsec) + [10, 0];
    assert Spaced(nums[1..], blanks[1..]) == Decimal(t.sec) + ([32] + (Decimal(t.nsec) + [10, 0]));
    QuotedGoesOn(t.name, []);
  }

  /** A first line that is no version line means what it means further down in a file of the first version. */
  lemma FirstAsAny(s: seq<Byte>)
    requires s != [] && s != [64, 118, 49, 64, 10, 0] && s != [64, 118, 50, 64, 10, 0]
    ensures ReadLine(NEW_READER, s) == ReadLine(NEW_READER.(firstLine := false), s)
  {
    hide Scan;
    assert V1_LINE + [NUL] == [64, 118, 49, 64, 10, 0] && V2_LINE + [NUL] == [64, 118, 50, 64, 10, 0];
  }

  /** A version line further down fails. */
  lemma LateVersion(r: Reader, s: seq<Byte>)
    requires s == [64, 118, 49, 64, 10, 0] || s == [64, 118, 50, 64, 10, 0]
    requires !r.firstLine && (r.wasCmd ==> r.rule.Some?)
    ensures ReadLine(r, s) == Failed
  {
    hide Scan;
    assert SkipBlanks(s, 0) == 0;
    StrayCharacter(s, false, r.v2, 0, NEW_LINE);
  }

  /** A command before any entry. */
  lemma CommandFirst(args: seq<seq<Byte>>)
    requires NulFree(args)
    ensures ReadFile(NEW_READER, V2_LINE + (([TAB] + ArgsText(args)) + [])) == Undefined
  {
    hide ReadFile, ReadLine, ArgsText, OneLine, Clean;
    VersionTwoLine();
    FileStep(NEW_READER, V2_LINE, ([TAB] + ArgsText(args)) + []);
    var r := NEW_READER.(v2 := true, firstLine := false);
    CommandOneLine(args);
    FileStep(r, [TAB] + ArgsText(args), []);
    CommandLine(r, args);
    AtFileEnd(r.(wasCmd := true, cmds := r.cmds + [args]));
  }

  lemma VersionTwoLine()
    ensures OneLine(V2_LINE) && V2_LINE == [64, 118, 50, 64, 10]
    ensures ReadLine(NEW_READER, V2_LINE + [NUL]) == Going(NEW_READER.(v2 := true, firstLine := false))
  {
  }

  lemma AtFileEnd(r: Reader)
    requires r.wasCmd && r.rule == None
    ensures ReadFile(r, []) == Undefined
  {
  }
}
