/** The loops that print the database file, and the parser with its reused buffers. */
module DbCode {
  import opened Options
  import opened Bytes
  import opened Literal
  import opened LiteralCode
  import opened DbFormat
  import opened DbRoundTrip

  // Printing

  /** What is left to print once some of the entries are out; the first block needs no empty line of its own. */
  ghost function Left(first: bool, es: seq<Entry>, ts: seq<Stamp>): seq<Byte> {
    var t := EntriesText(es) + StampsText(ts);
    if first && t != [] then t[1..] else t
  }

  /** file_escape_string on a C string held with its terminator. */
  method PutString(accept: array<bool>, reject: array<seq<Byte>>, s: seq<Byte>) returns (out: seq<Byte>)
    requires Tables(accept[..], reject[..]) && NUL !in s
    ensures out == Quoted(s)
  {
    out := FileEscapeString(accept, reject, s + [NUL]);
    TerminatedString(s);
    out := [QUOTE] + out + [QUOTE];
  }

  lemma {:induction false} TerminatedString(s: seq<Byte>)
    requires NUL !in s
    ensures CString(s + [NUL]) == s
    decreases |s|
  {
    if s != [] {
      assert s[0] in s;
      assert (s + [NUL])[1..] == s[1..] + [NUL];
      TerminatedString(s[1..]);
    }
  }

  /** The argument loop of one command. */
  method PutArgs(accept: array<bool>, reject: array<seq<Byte>>, args: seq<seq<Byte>>) returns (out: seq<Byte>)
    requires Tables(accept[..], reject[..]) && NulFree(args)
    ensures out == ArgsText(args)
  {
    hide Tables, Quoted;
    out := [];
    var first := true;
    var j := 0;
    while j < |args|
      invariant 0 <= j <= |args| && (first <==> j == 0)
      invariant ArgsText(args) == out + ((if first || j == |args| then [] else [SPACE]) + ArgsText(args[j..]))
    {
      if first {
        first := false;
      } else {
        out := out + [SPACE];
      }
      var q := PutString(accept, reject, args[j]);
      assert args[j..][1..] == args[j + 1..];
      ArgsUnfold(args[j..]);
      out := out + q;
      j := j + 1;
    }
    out := out + [NEWLINE];
  }

  /** One entry, with its commands. */
  method PutEntry(accept: array<bool>, reject: array<seq<Byte>>, e: Entry) returns (out: seq<Byte>)
    requires Tables(accept[..], reject[..]) && EntryOk(e)
    ensures out == HeadText(e) + CmdsText(e.cmds)
  {
    hide Tables, Quoted, ArgsText, NulFree;
    var dir := PutString(accept, reject, e.dir);
    var tgt := PutString(accept, reject, e.tgt);
    out := dir + ([SPACE] + (tgt + [COLON, NEWLINE]));
    var i := 0;
    while i < |e.cmds|
      invariant 0 <= i <= |e.cmds|
      invariant out + CmdsText(e.cmds[i..]) == HeadText(e) + CmdsText(e.cmds)
    {
      var args := PutArgs(accept, reject, e.cmds[i]);
      assert e.cmds[i..][1..] == e.cmds[i + 1..];
      out := out + [TAB] + args;
      i := i + 1;
    }
  }

  method PutStamp(accept: array<bool>, reject: array<seq<Byte>>, t: Stamp) returns (out: seq<Byte>)
    requires Tables(accept[..], reject[..]) && NUL !in t.name
    ensures out == StampText(t)
  {
    hide Tables, Quoted, Signed;
    var name := PutString(accept, reject, t.name);
    out := name + [SPACE, EQUALS, SPACE] + Signed(t.sz) + [SPACE] + Signed(t.sec) + [SPACE] + Signed(t.nsec) +
      [NEWLINE];
  }

  lemma LeftEntry(first: bool, es: seq<Entry>, ts: seq<Stamp>)
    requires es != []
    ensures Left(first, es, ts) ==
      (if first then [] else [NEWLINE]) + (HeadText(es[0]) + CmdsText(es[0].cmds)) + Left(false, es[1..], ts)
  {
    hide HeadText, CmdsText, EntriesText, StampsText;
    var h, c, x := HeadText(es[0]), CmdsText(es[0].cmds), EntriesText(es[1..]) + StampsText(ts);
    EntriesSplit(es, StampsText(ts));
    Regroup(h, c, x);
    AfterBlank(first, h + (c + x));
    Regroup(if first then [] else [NEWLINE], h + c, x);
  }

  lemma AfterBlank(first: bool, rest: seq<Byte>)
    ensures var t := [NEWLINE] + rest;
      t != [] && (if first then t[1..] else t) == (if first then [] else [NEWLINE]) + rest
  {
  }

  lemma LeftStamp(first: bool, ts: seq<Stamp>)
    requires ts != []
    ensures Left(first, [], ts) == (if first then [] else [NEWLINE]) + StampText(ts[0]) + Left(false, [], ts[1..])
  {
    hide StampText;
    var x := StampsText(ts[1..]);
    assert EntriesText([]) + StampsText(ts) == [NEWLINE] + (StampText(ts[0]) + x);
    assert EntriesText([]) + x == x;
    AfterBlank(first, StampText(ts[0]) + x);
    Regroup(if first then [] else [NEWLINE], StampText(ts[0]), x);
  }

  /** The writing half of merge_db_v2. */
  method PrintDb(accept: array<bool>, reject: array<seq<Byte>>, es: seq<Entry>, ts: seq<Stamp>) returns (f: seq<Byte>)
    requires Tables(accept[..], reject[..]) && StampsOk(ts) && forall k | 0 <= k < |es| :: EntryOk(es[k])
    ensures f == FileText(es, ts)
  {
    hide Tables, EntryOk, Left, HeadText, CmdsText, StampText, EntriesText, StampsText, Bounded;
    f := V2_LINE + [NEWLINE];
    var first := true;
    LeftAll(es, ts);
    var i := 0;
    while i < |es|
      invariant 0 <= i <= |es|
      invariant f + Left(first, es[i..], ts) == FileText(es, ts)
    {
      LeftEntry(first, es[i..], ts);
      assert es[i..][1..] == es[i + 1..];
      if first {
        first := false;
      } else {
        f := f + [NEWLINE];
      }
      var block := PutEntry(accept, reject, es[i]);
      f := f + block;
      i := i + 1;
    }
    assert es[i..] == [] && ts[0..] == ts;
    i := 0;
    while i < |ts|
      invariant 0 <= i <= |ts|
      invariant f + Left(first, [], ts[i..]) == FileText(es, ts)
    {
      LeftStamp(first, ts[i..]);
      assert ts[i..][1..] == ts[i + 1..];
      if first {
        first := false;
      } else {
        f := f + [NEWLINE];
      }
      var block := PutStamp(accept, reject, ts[i]);
      f := f + block;
      i := i + 1;
    }
    assert ts[i..] == [] && f + [] == f;
    NothingLeft(first);
  }

  lemma LeftAll(es: seq<Entry>, ts: seq<Stamp>)
    ensures V2_LINE + [NEWLINE] + Left(true, es, ts) == FileText(es, ts)
    ensures es[0..] == es
  {
    hide HeadText, CmdsText, StampText;
    var t := EntriesText(es) + StampsText(ts);
    assert t != [] ==> t[0] == NEWLINE && [NEWLINE] + t[1..] == t;
    assert t == [] <==> es == [] && ts == [];
  }

  lemma NothingLeft(first: bool)
    ensures Left(first, [], []) == []
  {
  }

  // Parsing

  /** One command being collected: its slots, of which the first `argssz` are in use; or memory never written. */
  datatype CmdBuf = Unset | CmdBuf(args: seq<seq<Byte>>, argssz: nat)

  function Used(c: CmdBuf): seq<seq<Byte>> {
    if c.CmdBuf? && c.argssz <= |c.args| then c.args[..c.argssz] else []
  }

  function UsedAll(cs: seq<CmdBuf>): seq<seq<seq<Byte>>> {
    seq(|cs|, i requires 0 <= i < |cs| => Used(cs[i]))
  }

  /** How parsing goes on: as before, with -1, with the program ending, or past what the C language defines. */
  datatype Status = Fine | Minus1 | Exiting | Lost

  predicate Allows(p: Parse, st: Status) {
    match p
    case Going(_) => st == Fine
    case Failed => st == Minus1
    case Ended => st == Exiting
    case Unclosed => st == Minus1 || st == Lost
    case Undefined => st == Lost
  }

  /** A string decoded in the line buffer. */
  datatype Place = Place(at: nat, sz: nat)

  /** The local variables of the loop over a line. */
  datatype Vars = Vars(len: nat, first: Option<Place>, two: bool, colon: bool, nums: seq<int>)

  datatype Token = More(vars: Vars) | Over(st: Status)

  /** The unread part of the buffer is untouched, and the first string still stands before it. */
  ghost predicate Held(now: seq<Byte>, s: seq<Byte>, v: Vars) {
    && |now| == |s| && Terminated(s, v.len)
    && (forall k | v.len <= k < |s| :: now[k] == s[k])
    && (v.first.Some? ==> v.first.value.at + v.first.value.sz <= v.len)
  }

  ghost function CursorOf(now: seq<Byte>, s: seq<Byte>, v: Vars): Cursor
    requires Held(now, s, v)
  {
    Cursor(if v.first.Some? then Some(now[v.first.value.at..v.first.value.at + v.first.value.sz])
      else None, v.two, v.colon, v.nums)
  }

  predicate Ends(e: LineEnd, st: Status) {
    match e
    case Actions(_) => st == Fine
    case Rejected => st == Minus1
    case Exited => st == Exiting
    case Open => st == Minus1 || st == Lost
    case Nameless => st == Lost
  }

  /** What one round did to the buffer and the parser agrees with `step`. */
  ghost predicate Took(step: Step, tok: Token, before: Reader, after: Reader, now: seq<Byte>, s: seq<Byte>) {
    match step
    case Stop(e) => tok.Over? && Ends(e, tok.st) && after == if e.Actions? then Apply(before, e.acts) else before
    case Next(acts, i, c) =>
      tok.More? && tok.vars.len == i && Held(now, s, tok.vars) && CursorOf(now, s, tok.vars) == c &&
        after == Apply(before, acts)
  }

  /** whitespacespn. */
  method Whitespace(line: array<Byte>, i: nat, ghost s: seq<Byte>) returns (next: nat)
    requires |s| == line.Length && Terminated(s, i) && forall k | i <= k < |s| :: line[k] == s[k]
    ensures next == SkipBlanks(s, i) < |s| && Terminated(s, next)
  {
    next := i;
    while IsBlank(line[next])
      invariant i <= next < |s| && SkipBlanks(s, next) == SkipBlanks(s, i)
      decreases |s| - next
    {
      next := next + 1;
    }
  }

  lemma {:induction false} DecodeSame(a: seq<Byte>, b: seq<Byte>, i: nat)
    requires |a| == |b| && forall k | i <= k < |a| :: a[k] == b[k]
    ensures DecodeAt(a, i) == DecodeAt(b, i)
    decreases |a| - i
  {
    if i < |a| {
      if a[i] == BACKSLASH {
        SameEscape(a, b, i);
        if EscapeAt(a, i).Piece? {
          DecodeSame(a, b, EscapeAt(a, i).next);
        }
      } else {
        DecodeSame(a, b, i + 1);
      }
    }
  }

  lemma {:induction false} CStringCut(b: seq<Byte>, rest: seq<Byte>)
    ensures CString(b + [NUL] + rest) == CString(b)
    decreases |b|
  {
    var s := b + [NUL] + rest;
    if b == [] {
      assert s[0] == NUL;
    } else {
      assert s[0] == b[0] && s[1..] == b[1..] + [NUL] + rest;
      CStringCut(b[1..], rest);
    }
  }

  lemma ApplyOne(r: Reader, a: Action)
    ensures match a
      case OpenRule(dir, tgt) => Apply(r, [a]) == r.(rule := Some((dir, tgt)), cmds := [])
      case AddArg(x) => r.cmds != [] ==> Apply(r, [a]) == r.(cmds := r.cmds[|r.cmds| - 1 := r.cmds[|r.cmds| - 1] + [x]])
      case AddStamp(t) => Apply(r, [a]) == r.(stamps := r.stamps + [t])
  {
    assert [a][1..] == [];
  }

  /** struct dbyy, with what the callbacks have been given. */
  class Dbyy {
    var cmdsbuf: seq<CmdBuf>
    var cmdssz: nat
    var cmdsmaxsz: nat
    var rule: Option<(seq<Byte>, seq<Byte>)>
    var entries: seq<Entry>
    var stamps: seq<Stamp>

    ghost predicate Valid()
      reads this
    {
      && cmdssz <= cmdsmaxsz <= |cmdsbuf|
      && forall i | 0 <= i < cmdsmaxsz :: cmdsbuf[i].CmdBuf? && cmdsbuf[i].argssz <= |cmdsbuf[i].args|
    }

    /** The commands collected for the current entry. */
    function Commands(): seq<seq<seq<Byte>>>
      requires Valid()
      reads this
    {
      UsedAll(cmdsbuf[..cmdssz])
    }

    /** The parser state this stands for. */
    ghost function View(firstLine: bool, v2: bool, wasCmd: bool): Reader
      requires Valid()
      reads this
    {
      Reader(firstLine, v2, wasCmd, rule, Commands(), entries, stamps)
    }

    constructor ()
      ensures Valid() && View(true, false, false) == NEW_READER
    {
      cmdsbuf, cmdssz, cmdsmaxsz := [], 0, 0;
      rule, entries, stamps := None, [], [];
    }

    /** dbyy_add_cmd: the next buffer, reused with its slots or new. */
    method AddCmd()
      requires Valid()
      modifies this`cmdsbuf, this`cmdssz, this`cmdsmaxsz
      ensures Valid() && Commands() == old(Commands()) + [[]]
    {
      if cmdssz >= |cmdsbuf| {
        var newcapacity := 2 * |cmdsbuf| + 1;
        cmdsbuf := cmdsbuf + seq(newcapacity - |cmdsbuf|, i => Unset);
      }
      if cmdssz >= cmdsmaxsz {
        cmdsbuf := cmdsbuf[cmdssz := CmdBuf([], 0)];
        cmdsmaxsz := cmdsmaxsz + 1;
      }
      cmdsbuf := cmdsbuf[cmdssz := cmdsbuf[cmdssz].(argssz := 0)];
      cmdssz := cmdssz + 1;
      assert Commands() == old(Commands()) + [[]];
    }

    /** dbyy_add_arg. */
    method AddArg(arg: seq<Byte>)
      requires Valid() && cmdssz > 0
      modifies this`cmdsbuf
      ensures Valid() && |Commands()| == |old(Commands())| > 0
      ensures var n := cmdssz - 1; Commands() == old(Commands())[n := old(Commands())[n] + [CString(arg)]]
    {
      var cmd := cmdsbuf[cmdssz - 1];
      if cmd.argssz >= |cmd.args| {
        var newcapacity := 2 * |cmd.args| + 1;
        var uninitialized: seq<Byte> := *;
        cmd := cmd.(args := cmd.args + seq(newcapacity - |cmd.args|, i => uninitialized));
      }
      cmd := CmdBuf(cmd.args[cmd.argssz := CString(arg)], cmd.argssz + 1);
      assert Used(cmd) == Used(cmdsbuf[cmdssz - 1]) + [CString(arg)];
      cmdsbuf := cmdsbuf[cmdssz - 1 := cmd];
      assert Commands() == old(Commands())[cmdssz - 1 := Used(cmd)];
    }

    /** dbyy_emplace_rule: a new current entry, without commands. */
    method EmplaceRule(dir: seq<Byte>, tgt: seq<Byte>)
      requires Valid()
      modifies this`rule, this`cmdssz
      ensures Valid() && rule == Some((dir, tgt)) && Commands() == []
    {
      cmdssz := 0;
      rule := Some((dir, tgt));
    }

    /** dbyy_emplace_tsdb. */
    method EmplaceTsdb(t: Stamp)
      modifies this`stamps
      ensures stamps == old(stamps) + [t]
    {
      stamps := stamps + [t];
    }

    /** dbyy_post_cmds hands the current entry to the callback. */
    method PostCmds(ghost f: bool, ghost v2: bool, ghost w: bool) returns (st: Status)
      requires Valid()
      modifies this`entries
      ensures Allows(Post(old(View(f, v2, w))), st) && Valid()
      ensures st == Fine ==> View(f, v2, w) == Post(old(View(f, v2, w))).r
    {
      if rule == None {
        return Lost;
      }
      entries := entries + [Entry(rule.value.0, rule.value.1, Commands())];
      return Fine;
    }

    /** What is done with a string that stands at `at`; `v.len` is already past it. */
    method UseString(line: array<Byte>, isCmd: bool, v2: bool, v: Vars, at: nat, sz: nat, ghost s: seq<Byte>)
      returns (w: Vars)
      requires Valid() && (isCmd ==> cmdssz > 0) && Held(line[..], s, v)
      requires at + sz < v.len && line[at + sz] == NUL
      modifies this`cmdsbuf, this`cmdssz, this`rule
      ensures Valid() && (isCmd ==> cmdssz > 0) && Held(line[..], s, w) && w.len == v.len
      ensures var (acts, c) := TakeString(isCmd, CursorOf(line[..], s, v), line[at..at + sz]);
        CursorOf(line[..], s, w) == c && View(false, v2, isCmd) == Apply(old(View(false, v2, isCmd)), acts)
    {
      hide Apply;
      ghost var r := View(false, v2, isCmd);
      if isCmd {
        CStringCut(line[at..at + sz], line[at + sz + 1..]);
        assert line[at..] == line[at..at + sz] + [NUL] + line[at + sz + 1..];
        ApplyOne(r, Action.AddArg(CString(line[at..at + sz])));
        AddArg(line[at..]);
        w := v;
      } else if v.first.Some? {
        var p := v.first.value;
        ApplyOne(r, OpenRule(line[p.at..p.at + p.sz], line[at..at + sz]));
        EmplaceRule(line[p.at..p.at + p.sz], line[at..at + sz]);
        w := v.(first := None, two := true);
      } else {
        w := v.(first := Some(Place(at, sz)));
        ApplyNone(r);
      }
    }

    /** The branch of the loop that reads a literal. */
    method StringToken(line: array<Byte>, isCmd: bool, v2: bool, v: Vars, ghost s: seq<Byte>) returns (tok: Token)
      requires Valid() && (isCmd ==> cmdssz > 0) && Held(line[..], s, v) && line[v.len] == QUOTE
      modifies this`cmdsbuf, this`cmdssz, this`rule, line
      ensures Valid() && (isCmd ==> cmdssz > 0)
      ensures Took(StepAt(s, isCmd, v2, v.len, old(CursorOf(line[..], s, v))), tok,
                   old(View(false, v2, isCmd)), View(false, v2, isCmd), line[..], s)
    {
      hide DecodeAt, TakeString, Apply, EndOfLine, SkipBlanks, Valid, View;
      ApplyNone(View(false, v2, isCmd));
      if v.two {
        return Over(Minus1);
      }
      var r := OpenLiteral(line, v, s);
      match r
      case NoString => return Over(Minus1);
      case Exit => return Over(Exiting);
      case Overrun => return Over(Lost);
      case Str(sz, end) =>
        tok := AfterString(line, isCmd, v2, v, sz, end, s);
    }

    /** The string decoded at `v.len` ends at `end`: what follows it decides. */
    method AfterString(line: array<Byte>, isCmd: bool, v2: bool, v: Vars, sz: nat, end: nat, ghost s: seq<Byte>)
      returns (tok: Token)
      requires Valid() && (isCmd ==> cmdssz > 0) && v.len < end < |s| && Held(line[..], s, v.(len := end))
      requires v.len + sz < end && line[v.len + sz] == NUL && !v.two && s[v.len] == QUOTE
      requires v.first.Some? ==> v.first.value.at + v.first.value.sz <= v.len
      requires DecodeAt(s, v.len + 1) == Read(line[v.len..v.len + sz], end)
      modifies this`cmdsbuf, this`cmdssz, this`rule
      ensures Valid() && (isCmd ==> cmdssz > 0)
      ensures Took(StepAt(s, isCmd, v2, v.len, CursorOf(line[..], s, v.(len := end))), tok,
                   old(View(false, v2, isCmd)), View(false, v2, isCmd), line[..], s)
    {
      hide DecodeAt, TakeString, Apply, EndOfLine, SkipBlanks, Valid, View;
      ApplyNone(View(false, v2, isCmd));
      if line[end] == NUL {
        return Over(Fine);
      }
      var next := Whitespace(line, end, s);
      BlankOrNot(s, end);
      if next == end && line[end] != NEWLINE && line[end] != EQUALS && line[end] != COLON {
        return Over(Minus1);
      }
      if line[next] == NUL {
        return Over(Fine);
      }
      SameFirst(line[..], line[..], s, v.(len := end), next);
      var w := UseString(line, isCmd, v2, v.(len := next), v.len, sz, s);
      return More(w);
    }

    /** After a token that ends at `i`: the loop goes on past blanks, unless the text ends. */
    method GoOn(line: array<Byte>, isCmd: bool, v2: bool, w: Vars, i: nat, ghost s: seq<Byte>) returns (tok: Token)
      requires Valid() && i < |s| && Held(line[..], s, w.(len := i))
      ensures Took(Onward(s, i, [], CursorOf(line[..], s, w.(len := i))), tok,
                   View(false, v2, isCmd), View(false, v2, isCmd), line[..], s)
    {
      hide Apply, SkipBlanks, Valid, View;
      ApplyNone(View(false, v2, isCmd));
      var next := Whitespace(line, i, s);
      if line[next] == NUL {
        return Over(Fine);
      }
      SameFirst(line[..], line[..], s, w.(len := i), next);
      return More(w.(len := next));
    }

    /** The branches for a colon, an equals sign and a number. */
    method PlainToken(line: array<Byte>, isCmd: bool, v2: bool, v: Vars, ghost s: seq<Byte>) returns (tok: Token)
      requires Held(line[..], s, v) && (line[v.len] == COLON || line[v.len] == EQUALS || IsDigit(line[v.len]))
      requires Valid()
      ensures Took(StepAt(s, isCmd, v2, v.len, CursorOf(line[..], s, v)), tok,
                   View(false, v2, isCmd), View(false, v2, isCmd), line[..], s)
    {
      hide Apply, Onward, SkipDigits, Valid, View, Strtoll, CursorOf;
      var i, w := v.len + 1, v;
      CursorMoves(line[..], s, v, v, v.len);
      if line[v.len] == COLON {
        if !v.two {
          return Over(Minus1);
        }
        w := v.(colon := true);
      } else if !v2 {
        return Over(Minus1);
      } else if line[v.len] != EQUALS {
        if |v.nums| >= 3 {
          return Over(Minus1);
        }
        i := Digits(line, v.len + 1, s);
        assert line[v.len..i] == s[v.len..i];
        DigitsOnly(s, v.len, i);
        w := v.(nums := v.nums + [Strtoll(line[v.len..i])]);
      }
      CursorMoves(line[..], s, v, w, i);
      tok := GoOn(line, isCmd, v2, w, i, s);
    }

    /** The branch at the end of the line. */
    method EndToken(line: array<Byte>, isCmd: bool, v2: bool, v: Vars, ghost s: seq<Byte>) returns (st: Status)
      requires Held(line[..], s, v) && Valid()
      modifies this`stamps
      ensures Valid()
      ensures var e := EndOfLine(isCmd, CursorOf(line[..], s, v));
        Ends(e, st) && View(false, v2, isCmd) == if e.Actions? then Apply(old(View(false, v2, isCmd)), e.acts)
          else old(View(false, v2, isCmd))
    {
      ghost var r := View(false, v2, isCmd);
      ApplyNone(r);
      st := Fine;
      if isCmd {
      } else if |v.nums| == 3 {
        if v.first == None {
          return Lost;
        }
        var p := v.first.value;
        var t := Stamp(line[p.at..p.at + p.sz], v.nums[0], v.nums[1], v.nums[2]);
        ApplyOne(r, AddStamp(t));
        EmplaceTsdb(t);
      } else if v.first == None && v.nums == [] {
      } else if !v.two || !v.colon {
        st := Minus1;
      }
    }

    /** One round of the loop over a line. */
    method OneToken(line: array<Byte>, isCmd: bool, v2: bool, v: Vars, ghost s: seq<Byte>) returns (tok: Token)
      requires Valid() && (isCmd ==> cmdssz > 0) && Held(line[..], s, v)
      modifies this, line
      ensures Valid() && (isCmd ==> cmdssz > 0)
      ensures Took(StepAt(s, isCmd, v2, v.len, old(CursorOf(line[..], s, v))), tok,
                   old(View(false, v2, isCmd)), View(false, v2, isCmd), line[..], s)
    {
      hide Apply, SkipBlanks, SkipDigits, Valid, View, Strtoll, DecodeAt, EndOfLine, TakeString, CursorOf;
      if line[v.len] == QUOTE {
        tok := StringToken(line, isCmd, v2, v, s);
      } else if line[v.len] == COLON || line[v.len] == EQUALS || IsDigit(line[v.len]) {
        tok := PlainToken(line, isCmd, v2, v, s);
      } else if line[v.len] == NEWLINE || line[v.len] == NUL {
        var st := EndToken(line, isCmd, v2, v, s);
        tok := Over(st);
      } else {
        tok := Over(Minus1);
      }
    }

    /** The loop over one line. */
    method ParseLine(line: array<Byte>, isCmd: bool, v2: bool, i: nat) returns (st: Status)
      requires Valid() && (isCmd ==> cmdssz > 0) && Terminated(line[..], i)
      modifies this, line
      ensures Valid()
      ensures var e := old(Scan(line[..], isCmd, v2, i, NEW_LINE));
        Ends(e, st) && (e.Actions? ==> View(false, v2, isCmd) == Apply(old(View(false, v2, isCmd)), e.acts))
    {
      hide Apply, Scan, StepAt, Valid, View, Held, CursorOf, Ends, Prefixed;
      ghost var s := line[..];
      ghost var whole := Scan(s, isCmd, v2, i, NEW_LINE);
      ghost var before := View(false, v2, isCmd);
      ghost var acts := [];
      var v := Vars(i, None, false, false, []);
      assert Held(s, s, v) && CursorOf(s, s, v) == NEW_LINE by {
        LineStarts(s, i);
      }
      NothingBefore(whole);
      ApplyNone(before);
      while true
        invariant line.Length == |s| && Valid() && (isCmd ==> cmdssz > 0) && Held(line[..], s, v)
        invariant whole == Prefixed(acts, Scan(s, isCmd, v2, v.len, CursorOf(line[..], s, v)))
        invariant View(false, v2, isCmd) == Apply(before, acts)
        decreases |s| - v.len
      {
        HeldRange(line[..], s, v);
        ghost var step := StepAt(s, isCmd, v2, v.len, CursorOf(line[..], s, v));
        Advance(s, isCmd, v2, v.len, CursorOf(line[..], s, v), acts, step);
        var tok := OneToken(line, isCmd, v2, v, s);
        if tok.Over? {
          ApplyAll(before, acts, if step.end.Actions? then step.end.acts else []);
          EndsSame(acts, step.end, tok.st);
          return tok.st;
        }
        ApplyAll(before, acts, step.acts);
        acts := acts + step.acts;
        v := tok.vars;
      }
    }

    /** What is done before the loop over a line: a command is opened, or the entry before this line is handed over. */
    method BeforeLine(isCmd: bool, was: bool, ghost f: bool, ghost v2: bool) returns (st: Status)
      requires Valid()
      modifies this`cmdsbuf, this`cmdssz, this`cmdsmaxsz, this`entries
      ensures Valid() && (isCmd ==> cmdssz > 0)
      ensures var r := old(View(f, v2, was));
        var p := if isCmd then Going(r.(cmds := r.cmds + [[]])) else if was then Post(r) else Going(r);
        Allows(p, st) && (st == Fine ==> View(f, v2, was) == p.r)
    {
      st := Fine;
      if isCmd {
        AddCmd();
      } else if was {
        st := PostCmds(f, v2, was);
      }
    }

    /** One line of the file. */
    method TakeLine(line: array<Byte>, first: bool, v2: bool, was: bool)
      returns (st: Status, first': bool, v2': bool, was': bool)
      requires Valid() && Terminated(line[..], 0)
      modifies this, line
      ensures Valid()
      ensures var p := old(ReadLine(View(first, v2, was), line[..]));
        Allows(p, st) && (st == Fine ==> View(first', v2', was') == p.r)
    {
      hide Scan, Apply, Valid, Post, Commands;
      ghost var s := line[..];
      first', v2', was' := first, v2, was;
      if first && line[..] == V2_LINE + [NUL] {
        return Fine, false, true, was;
      }
      if first && line[..] == V1_LINE + [NUL] {
        return Fine, false, false, was;
      }
      var isCmd := line[0] == TAB;
      st := BeforeLine(isCmd, was, first, v2);
      if st != Fine {
        return;
      }
      var len := Whitespace(line, 0, s);
      st := ParseLine(line, isCmd, v2, len);
      first', was' := false, isCmd;
    }

    /** dbyymineparse: reports the entries and stamps of the file through its callbacks. */
    method MineParse(f: seq<Byte>) returns (ret: Status)
      requires Valid() && View(true, false, false) == NEW_READER && NUL !in f
      modifies this
      ensures Valid() && Allows(ReadFile(NEW_READER, f), ret)
      ensures ret == Fine ==> entries == ReadFile(NEW_READER, f).r.entries && stamps == ReadFile(NEW_READER, f).r.stamps
    {
      hide ReadLine, FirstLine, Valid, Commands, ReadFile;
      var first, v2, was := true, false, false;
      var pos := 0;
      assert f[0..] == f;
      while pos < |f|
        invariant 0 <= pos <= |f| && Valid()
        invariant ReadFile(NEW_READER, f) == ReadFile(View(first, v2, was), f[pos..])
        decreases |f| - pos
      {
        ghost var r := View(first, v2, was);
        var line, n := GetLine(f, pos);
        SliceAgain(f, pos, n);
        FileUnfolds(r, f[pos..]);
        var st, first', v2', was' := TakeLine(line, first, v2, was);
        if st != Fine {
          return st;
        }
        first, v2, was, pos := first', v2', was', pos + n;
      }
      assert f[pos..] == [];
      FileUnfolds(View(first, v2, was), []);
      ret := Fine;
      if was {
        ret := PostCmds(first, v2, was);
      }
    }
  }

  lemma FileUnfolds(r: Reader, text: seq<Byte>)
    ensures ReadFile(r, text) ==
      if text == [] then if r.wasCmd then Post(r) else Going(r)
      else
        var n := FirstLine(text);
        var p := ReadLine(r, text[..n] + [NUL]);
        if p.Going? then ReadFile(p.r, text[n..]) else p
  {
    hide ReadLine, FirstLine, Post;
  }

  /** mygetline on a text without NUL bytes: the next line with its newline, and a terminator. */
  method GetLine(f: seq<Byte>, pos: nat) returns (line: array<Byte>, n: nat)
    requires pos < |f| && NUL !in f
    ensures n == FirstLine(f[pos..]) && 0 < n <= |f| - pos
    ensures fresh(line) && line[..] == f[pos..][..n] + [NUL] && Terminated(line[..], 0)
  {
    n := 1;
    LineStep(f, pos);
    while pos + n < |f| && f[pos + n - 1] != NEWLINE
      invariant 0 < n <= |f| - pos
      invariant FirstLine(f[pos..]) == n - 1 + FirstLine(f[pos + n - 1..])
      decreases |f| - n
    {
      LineStep(f, pos + n - 1);
      n := n + 1;
    }
    LineStep(f, pos + n - 1);
    var text := f[pos..pos + n] + [NUL];
    line := new Byte[|text|](i requires 0 <= i < |text| => text[i]);
    assert line[..] == text && f[pos..pos + n] == f[pos..][..n];
    forall k | 0 <= k < n
      ensures line[k] != NUL
    {
      assert line[k] == f[pos + k];
    }
  }

  lemma LineStep(f: seq<Byte>, i: nat)
    requires i < |f|
    ensures FirstLine(f[i..]) == if f[i] == NEWLINE || i + 1 == |f| then 1 else 1 + FirstLine(f[i + 1..])
  {
    assert f[i..][1..] == f[i + 1..];
  }

  /** Changing the flags and numbers, and moving on, changes the cursor likewise. */
  lemma CursorMoves(now: seq<Byte>, s: seq<Byte>, v: Vars, w: Vars, i: nat)
    requires Held(now, s, v) && v.len <= i < |s| && w.first == v.first
    ensures Held(now, s, w.(len := i))
    ensures CursorOf(now, s, w.(len := i)) == CursorOf(now, s, v).(two := w.two, colon := w.colon, nums := w.nums)
    ensures var c := CursorOf(now, s, v); c.two == v.two && c.colon == v.colon && c.nums == v.nums
  {
  }

  lemma LineStarts(s: seq<Byte>, i: nat)
    requires Terminated(s, i)
    ensures var v := Vars(i, None, false, false, []); Held(s, s, v) && CursorOf(s, s, v) == NEW_LINE
  {
  }

  lemma HeldRange(now: seq<Byte>, s: seq<Byte>, v: Vars)
    requires Held(now, s, v)
    ensures |now| == |s| && v.len < |s|
  {
  }

  /** Adding one round to what has been done. */
  lemma Advance(s: seq<Byte>, isCmd: bool, v2: bool, i: nat, c: Cursor, acts: seq<Action>, step: Step)
    requires i < |s| && step == StepAt(s, isCmd, v2, i, c)
    ensures Prefixed(acts, Scan(s, isCmd, v2, i, c)) ==
      match step
      case Stop(e) => Prefixed(acts, e)
      case Next(more, next, c') => Prefixed(acts + more, Scan(s, isCmd, v2, next, c'))
    ensures step.Next? ==> i < step.i
  {
    if step.Next? {
      var e := Scan(s, isCmd, v2, step.i, step.c);
      if e.Actions? {
        assert acts + (step.acts + e.acts) == acts + step.acts + e.acts;
      }
    }
  }

  lemma EndsSame(acts: seq<Action>, e: LineEnd, st: Status)
    requires Ends(e, st)
    ensures Ends(Prefixed(acts, e), st) && (Prefixed(acts, e).Actions? <==> e.Actions?)
    ensures e.Actions? ==> Prefixed(acts, e).acts == acts + e.acts
  {
  }

  lemma {:induction false} ApplyAll(r: Reader, a: seq<Action>, b: seq<Action>)
    ensures Apply(r, a + b) == Apply(Apply(r, a), b)
    decreases |a|
  {
    if a == [] {
      assert a + b == b;
    } else {
      assert (a + b)[0] == a[0] && (a + b)[1..] == a[1..] + b;
      ApplyOne(r, a[0]);
      ApplyAll(Apply(r, [a[0]]), a[1..], b);
      ApplyHead(r, a);
      ApplyHead(r, a + b);
    }
  }

  lemma ApplyHead(r: Reader, a: seq<Action>)
    requires a != []
    ensures Apply(r, a) == Apply(Apply(r, [a[0]]), a[1..])
  {
    assert [a[0]][1..] == [];
  }

  /** The digits strtoll goes over. */
  method Digits(line: array<Byte>, i: nat, ghost s: seq<Byte>) returns (end: nat)
    requires |s| == line.Length && i <= |s| && Terminated(s, i) && forall k | i <= k < |s| :: line[k] == s[k]
    ensures end == SkipDigits(s, i) < |s| && Terminated(s, end)
  {
    end := i;
    while IsDigit(line[end])
      invariant i <= end < |s| && SkipDigits(s, end) == SkipDigits(s, i)
      decreases |s| - end
    {
      end := end + 1;
    }
  }

  lemma DigitsOnly(s: seq<Byte>, i: nat, end: nat)
    requires i < |s| && IsDigit(s[i]) && end == SkipDigits(s, i + 1)
    ensures AllDigits(s[i..end])
  {
  }

  /** Decode the literal at `v.len`; what the line held before and after it stays. */
  method OpenLiteral(line: array<Byte>, v: Vars, ghost s: seq<Byte>) returns (r: Outcome)
    requires Held(line[..], s, v) && line[v.len] == QUOTE
    modifies line
    ensures s[v.len] == QUOTE && Reports(r, DecodeAt(s, v.len + 1))
    ensures r.Str? ==> v.len + r.sz < r.end < |s| && Held(line[..], s, v.(len := r.end)) && line[v.len + r.sz] == NUL
    ensures r.Str? ==> DecodeAt(s, v.len + 1) == Read(line[v.len..v.len + r.sz], r.end)
    ensures r.Str? ==> CursorOf(line[..], s, v.(len := r.end)) == old(CursorOf(line[..], s, v))
  {
    hide DecodeAt, CursorOf;
    ghost var was := line[..];
    DecodeSame(was, s, v.len + 1);
    r := DecodeInPlace(line, v.len);
    if r.Str? {
      SameFirst(was, line[..], s, v, r.end);
    }
  }

  /** Decoding a later string leaves the first one alone. */
  lemma SameFirst(was: seq<Byte>, now: seq<Byte>, s: seq<Byte>, v: Vars, next: nat)
    requires Held(was, s, v) && |now| == |s| && v.len <= next < |s|
    requires forall k | 0 <= k < v.len :: now[k] == was[k]
    requires forall k | next <= k < |s| :: now[k] == s[k]
    ensures Held(now, s, v.(len := next)) && CursorOf(now, s, v.(len := next)) == CursorOf(was, s, v)
  {
    if v.first.Some? {
      var p := v.first.value;
      assert now[p.at..p.at + p.sz] == was[p.at..p.at + p.sz];
    }
  }

  lemma BlankOrNot(s: seq<Byte>, i: nat)
    requires i < |s|
    ensures SkipBlanks(s, i) == i <==> !IsBlank(s[i])
  {
  }

  lemma ApplyNone(r: Reader)
    ensures Apply(r, []) == r
  {
  }

  // Printing and reading back

  predicate NoNul(s: seq<Byte>) {
    NUL !in s
  }

  lemma NoNulTogether(a: seq<Byte>, b: seq<Byte>)
    requires NoNul(a) && NoNul(b)
    ensures NoNul(a + b)
  {
  }

  lemma QuotedNoNul(s: seq<Byte>)
    ensures NoNul(Quoted(s))
  {
    EscapedAllClean(s);
  }

  lemma SignedNoNul(n: int)
    ensures NoNul(Signed(n))
  {
    DecimalReads(if n < 0 then -n else n);
  }

  lemma {:induction false} ArgsNoNul(args: seq<seq<Byte>>)
    ensures NoNul(ArgsText(args))
    decreases |args|
  {
    hide Quoted;
    if args != [] {
      ArgsNoNul(args[1..]);
      QuotedNoNul(args[0]);
    }
  }

  lemma {:induction false} CmdsNoNul(cmds: seq<seq<seq<Byte>>>)
    ensures NoNul(CmdsText(cmds))
    decreases |cmds|
  {
    hide ArgsText;
    if cmds != [] {
      ArgsNoNul(cmds[0]);
      CmdsNoNul(cmds[1..]);
    }
  }

  lemma {:induction false} EntriesNoNul(es: seq<Entry>)
    ensures NoNul(EntriesText(es))
    decreases |es|
  {
    hide Quoted, CmdsText;
    if es != [] {
      QuotedNoNul(es[0].dir);
      QuotedNoNul(es[0].tgt);
      CmdsNoNul(es[0].cmds);
      EntriesNoNul(es[1..]);
    }
  }

  lemma StampNoNul(t: Stamp)
    ensures NoNul(StampText(t))
  {
    hide Quoted, Signed;
    QuotedNoNul(t.name);
    SignedNoNul(t.sz);
    SignedNoNul(t.sec);
    SignedNoNul(t.nsec);
  }

  lemma {:induction false} StampsNoNul(ts: seq<Stamp>)
    ensures NoNul(StampsText(ts))
    decreases |ts|
  {
    hide StampText;
    if ts != [] {
      StampNoNul(ts[0]);
      StampsNoNul(ts[1..]);
    }
  }

  lemma FileNoNul(es: seq<Entry>, ts: seq<Stamp>)
    ensures NUL !in FileText(es, ts)
  {
    EntriesNoNul(es);
    StampsNoNul(ts);
    NoNulTogether(EntriesText(es), StampsText(ts));
  }

  /** Writing a database and parsing what was written: the parser succeeds just when no number is negative, and then
      reports the entries that have a command and all the stamps, in order. */
  method WriteThenRead(accept: array<bool>, reject: array<seq<Byte>>, es: seq<Entry>, ts: seq<Stamp>)
      returns (ret: Status, entries: seq<Entry>, stamps: seq<Stamp>)
    requires Tables(accept[..], reject[..]) && StampsOk(ts) && forall k | 0 <= k < |es| :: EntryOk(es[k])
    ensures ret == if AllNonNegative(ts) then Fine else Minus1
    ensures ret == Fine ==> entries == Kept(es) && stamps == ts
  {
    hide ReadFile, FileText, Tables;
    var f := PrintDb(accept, reject, es, ts);
    FileNoNul(es, ts);
    FileReads(es, ts);
    var db := new Dbyy();
    ret := db.MineParse(f);
    entries, stamps := db.entries, db.stamps;
  }
}
