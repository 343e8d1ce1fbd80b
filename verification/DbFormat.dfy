/** The database file: how it is printed, and what the line parser makes of a text. */
module DbFormat {
  import opened Options
  import opened Bytes
  import opened Literal

  /** A target with the directory and the commands it was made with. */
  datatype Entry = Entry(dir: seq<Byte>, tgt: seq<Byte>, cmds: seq<seq<seq<Byte>>>)

  /** A file with its size and modification time. */
  datatype Stamp = Stamp(name: seq<Byte>, sz: int, sec: int, nsec: int)

  const LLONG_MAX := 0x7FFF_FFFF_FFFF_FFFF
  const V1_LINE: seq<Byte> := [64, 118, 49, 64, NEWLINE]
  const V2_LINE: seq<Byte> := [64, 118, 50, 64, NEWLINE]

  // Printing

  function Quoted(s: seq<Byte>): seq<Byte> {
    [QUOTE] + EscapedAll(s) + [QUOTE]
  }

  function Decimal(n: nat): (d: seq<Byte>)
    ensures d != []
  {
    if n < 10 then [48 + n] else Decimal(n / 10) + [48 + n % 10]
  }

  /** The %lld conversion. */
  function Signed(n: int): seq<Byte> {
    if n < 0 then [45] + Decimal(-n) else Decimal(n)
  }

  function ArgsText(args: seq<seq<Byte>>): seq<Byte> {
    if args == [] then [NEWLINE]
    else Quoted(args[0]) + ((if |args| == 1 then [] else [SPACE]) + ArgsText(args[1..]))
  }

  function CmdsText(cmds: seq<seq<seq<Byte>>>): seq<Byte> {
    if cmds == [] then [] else [TAB] + ArgsText(cmds[0]) + CmdsText(cmds[1..])
  }

  function HeadText(e: Entry): seq<Byte> {
    Quoted(e.dir) + ([SPACE] + (Quoted(e.tgt) + [COLON, NEWLINE]))
  }

  function NumbersText(t: Stamp): seq<Byte> {
    Signed(t.sz) + ([SPACE] + (Signed(t.sec) + ([SPACE] + (Signed(t.nsec) + [NEWLINE]))))
  }

  function StampText(t: Stamp): seq<Byte> {
    Quoted(t.name) + ([SPACE] + ([EQUALS] + ([SPACE] + NumbersText(t))))
  }

  function EntriesText(es: seq<Entry>): seq<Byte> {
    if es == [] then [] else [NEWLINE] + (HeadText(es[0]) + (CmdsText(es[0].cmds) + EntriesText(es[1..])))
  }

  function StampsText(ts: seq<Stamp>): seq<Byte> {
    if ts == [] then [] else [NEWLINE] + (StampText(ts[0]) + StampsText(ts[1..]))
  }

  /** The whole file: entries and stamps are separated by empty lines, and an empty line follows the version. */
  function FileText(es: seq<Entry>, ts: seq<Stamp>): seq<Byte> {
    V2_LINE + (if es == [] && ts == [] then [NEWLINE] else EntriesText(es) + StampsText(ts))
  }

  // Parsing one line

  /** The first position from `i` on that holds neither a space nor a tab. */
  function SkipBlanks(s: seq<Byte>, i: nat): (k: nat)
    requires i <= |s|
    ensures i <= k <= |s| && (k < |s| ==> !IsBlank(s[k]))
    decreases |s| - i
  {
    if i < |s| && IsBlank(s[i]) then SkipBlanks(s, i + 1) else i
  }

  function SkipDigits(s: seq<Byte>, i: nat): (k: nat)
    requires i <= |s|
    ensures i <= k <= |s|
    ensures forall j | i <= j < k :: IsDigit(s[j])
    decreases |s| - i
  {
    if i < |s| && IsDigit(s[i]) then SkipDigits(s, i + 1) else i
  }

  predicate AllDigits(h: seq<Byte>) {
    forall k | 0 <= k < |h| :: IsDigit(h[k])
  }

  function DecimalValue(h: seq<Byte>): nat
    requires AllDigits(h)
    decreases |h|
  {
    if h == [] then 0 else 10 * DecimalValue(h[..|h| - 1]) + HexValue(h[|h| - 1])
  }

  /** strtoll on digits. */
  function Strtoll(h: seq<Byte>): int
    requires AllDigits(h)
  {
    if DecimalValue(h) > LLONG_MAX then LLONG_MAX else DecimalValue(h)
  }

  /** What a line asks for. */
  datatype Action = OpenRule(dir: seq<Byte>, tgt: seq<Byte>) | AddArg(arg: seq<Byte>) | AddStamp(stamp: Stamp)

  /** The local variables of the loop over one line. */
  datatype Cursor = Cursor(first: Option<seq<Byte>>, two: bool, colon: bool, nums: seq<int>)

  /** How a line ends: with actions, with the parse failing, with the program ending, in a literal that is not
      closed, or with a stamp that has no name. */
  datatype LineEnd = Actions(acts: seq<Action>) | Rejected | Exited | Open | Nameless

  function Prefixed(a: seq<Action>, e: LineEnd): LineEnd {
    if e.Actions? then Actions(a + e.acts) else e
  }

  /** The line ends here, after its newline or where the text stops. */
  function EndOfLine(isCmd: bool, c: Cursor): LineEnd {
    if isCmd then Actions([])
    else if |c.nums| == 3 then
      if c.first == None then Nameless else Actions([AddStamp(Stamp(c.first.value, c.nums[0], c.nums[1], c.nums[2]))])
    else if c.first == None && c.nums == [] then Actions([])
    else if !c.two || !c.colon then Rejected
    else Actions([])
  }

  /** A string `b` has been read. */
  function TakeString(isCmd: bool, c: Cursor, b: seq<Byte>): (seq<Action>, Cursor) {
    if isCmd then ([AddArg(CString(b))], c)
    else if c.first.Some? then ([OpenRule(c.first.value, b)], c.(first := None, two := true))
    else ([], c.(first := Some(b)))
  }

  /** One round of the loop over a line: go on at `i`, or the line is over. */
  datatype Step = Next(acts: seq<Action>, i: nat, c: Cursor) | Stop(end: LineEnd)

  /** After a token that ends at `i`. */
  function Onward(s: seq<Byte>, i: nat, acts: seq<Action>, c: Cursor): (t: Step)
    requires i <= |s|
    ensures t.Next? ==> i <= t.i <= |s|
  {
    var next := SkipBlanks(s, i);
    if next < |s| && s[next] == NUL then Stop(Actions([])) else Next(acts, next, c)
  }

  function StepAt(s: seq<Byte>, isCmd: bool, v2: bool, i: nat, c: Cursor): (t: Step)
    requires i < |s|
    ensures t.Next? ==> i < t.i <= |s|
  {
    if s[i] == QUOTE then
      if c.two then Stop(Rejected)
      else
        match DecodeAt(s, i + 1)
        case Unclosed => Stop(Open)
        case BadEscape => Stop(Exited)
        case Read(b, end) =>
          if end >= |s| then Stop(Open)
          else if s[end] == NUL then Stop(Actions([]))
          else if !IsBlank(s[end]) && s[end] != NEWLINE && s[end] != EQUALS && s[end] != COLON then Stop(Rejected)
          else
            var (acts, c') := TakeString(isCmd, c, b);
            Onward(s, end, acts, c')
    else if s[i] == COLON then
      if !c.two then Stop(Rejected) else Onward(s, i + 1, [], c.(colon := true))
    else if s[i] == EQUALS then
      if !v2 then Stop(Rejected) else Onward(s, i + 1, [], c)
    else if IsDigit(s[i]) then
      if !v2 || |c.nums| >= 3 then Stop(Rejected)
      else
        var end := SkipDigits(s, i + 1);
        Onward(s, end, [], c.(nums := c.nums + [Strtoll(s[i..end])]))
    else if s[i] == NEWLINE || s[i] == NUL then Stop(EndOfLine(isCmd, c))
    else Stop(Rejected)
  }

  /** The loop over one line, from position `i`; the text ends with its terminator. */
  function Scan(s: seq<Byte>, isCmd: bool, v2: bool, i: nat, c: Cursor): LineEnd
    decreases |s| - i
  {
    if i >= |s| then Open
    else
      match StepAt(s, isCmd, v2, i, c)
      case Stop(end) => end
      case Next(acts, next, c') => Prefixed(acts, Scan(s, isCmd, v2, next, c'))
  }

  // Parsing a file

  /** The parser between two lines, with what it has handed to its callbacks so far. */
  datatype Reader = Reader(firstLine: bool, v2: bool, wasCmd: bool, rule: Option<(seq<Byte>, seq<Byte>)>,
                           cmds: seq<seq<seq<Byte>>>, entries: seq<Entry>, stamps: seq<Stamp>)

  /** How a parse ends: normally, with -1, with the program ending, in a literal that is not closed (with -1, or by
      running over the end of the line), or by using a rule or a name that was never read. */
  datatype Parse = Going(r: Reader) | Failed | Ended | Unclosed | Undefined

  const NEW_READER := Reader(true, false, false, None, [], [], [])
  const NEW_LINE := Cursor(None, false, false, [])

  /** dbyy_post_cmds. */
  function Post(r: Reader): Parse {
    if r.rule == None then Undefined
    else Going(r.(entries := r.entries + [Entry(r.rule.value.0, r.rule.value.1, r.cmds)]))
  }

  function Apply(r: Reader, acts: seq<Action>): Reader
    decreases |acts|
  {
    if acts == [] then r
    else
      var q := match acts[0]
        case OpenRule(dir, tgt) => r.(rule := Some((dir, tgt)), cmds := [])
        case AddArg(a) => if r.cmds == [] then r else r.(cmds := r.cmds[|r.cmds| - 1 := r.cmds[|r.cmds| - 1] + [a]])
        case AddStamp(t) => r.(stamps := r.stamps + [t]);
      Apply(q, acts[1..])
  }

  /** One line, given with its terminator. */
  function ReadLine(r: Reader, s: seq<Byte>): Parse
    requires s != []
  {
    if r.firstLine && s == V2_LINE + [NUL] then Going(r.(v2 := true, firstLine := false))
    else if r.firstLine && s == V1_LINE + [NUL] then Going(r.(v2 := false, firstLine := false))
    else
      var isCmd := s[0] == TAB;
      var p := if isCmd then Going(r.(cmds := r.cmds + [[]])) else if r.wasCmd then Post(r) else Going(r);
      if !p.Going? then p
      else
        match Scan(s, isCmd, r.v2, SkipBlanks(s, 0), NEW_LINE)
        case Actions(acts) => Going(Apply(p.r.(firstLine := false, wasCmd := isCmd), acts))
        case Rejected => Failed
        case Exited => Ended
        case Open => Parse.Unclosed
        case Nameless => Undefined
  }

  /** dbyymineparse on a text without NUL bytes. */
  function ReadFile(r: Reader, text: seq<Byte>): Parse
    decreases |text|
  {
    if text == [] then if r.wasCmd then Post(r) else Going(r)
    else
      var n := FirstLine(text);
      var p := ReadLine(r, text[..n] + [NUL]);
      if p.Going? then ReadFile(p.r, text[n..]) else p
  }
}
