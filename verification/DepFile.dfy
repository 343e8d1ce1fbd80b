/** Dependency files: what a line means, and which lines belong together. */
module DepFile {
  import opened Options
  import opened Bytes

  const DOLLAR: Byte := 36

  /** The bytes that end a run of ordinary ones. */
  predicate Special(c: Byte) {
    c == NUL || c == TAB || c == NEWLINE || c == SPACE || c == DOLLAR || c == COLON || c == BACKSLASH
  }

  // Joining lines

  /** How many backslashes stand at the end. */
  function Trailing(s: seq<Byte>): (n: nat)
    ensures n <= |s|
    decreases |s|
  {
    if s == [] || s[|s| - 1] != BACKSLASH then 0 else 1 + Trailing(s[..|s| - 1])
  }

  /** The line goes on: an odd run of backslashes stands before its newline. */
  predicate Continues(line: seq<Byte>) {
    |line| >= 2 && line[|line| - 1] == NEWLINE && Trailing(line[..|line| - 1]) % 2 == 1
  }

  /** Whether the byte after `s` is escaped: backslashes pair up from the left. */
  function Escaping(s: seq<Byte>): bool
    decreases |s|
  {
    s != [] && s[|s| - 1] == BACKSLASH && !Escaping(s[..|s| - 1])
  }

  /** Pairing from the left comes to the parity of the last run. */
  lemma {:induction false} EscapingIsOdd(s: seq<Byte>)
    ensures Escaping(s) <==> Trailing(s) % 2 == 1
    decreases |s|
  {
    if s != [] && s[|s| - 1] == BACKSLASH {
      EscapingIsOdd(s[..|s| - 1]);
    }
  }

  // One line

  datatype Token = Target(name: seq<Byte>) | Dep(name: seq<Byte>)

  datatype Outcome = Tokens(tokens: seq<Token>) | Bad

  function Before(t: seq<Token>, o: Outcome): Outcome {
    if o.Tokens? then Tokens(t + o.tokens) else o
  }

  /** A C string held with its terminator. */
  ghost predicate Terminated(s: seq<Byte>) {
    s != [] && s[|s| - 1] == NUL && NUL !in s[..|s| - 1]
  }

  predicate Escape(s: seq<Byte>, i: nat)
    requires i < |s|
  {
    (s[i] == BACKSLASH || s[i] == DOLLAR) && i + 1 < |s| && s[i + 1] != NUL
  }

  /** Where the word that starts at `i` ends. */
  function WordEnd(s: seq<Byte>, i: nat): (e: nat)
    requires i <= |s|
    ensures i <= e <= |s|
    decreases |s| - i
  {
    if i == |s| then i
    else if Escape(s, i) then WordEnd(s, i + 2)
    else if Special(s[i]) then i
    else WordEnd(s, i + 1)
  }

  /** Past blanks, and past escaped newlines when something blank came before. */
  function SkipSpace(s: seq<Byte>, i: nat, blank: bool): (k: nat)
    requires i <= |s|
    ensures i <= k <= |s|
    decreases |s| - i
  {
    if i < |s| && IsBlank(s[i]) then SkipSpace(s, i + 1, true)
    else if blank && i + 1 < |s| && s[i] == BACKSLASH && s[i + 1] == NEWLINE then SkipSpace(s, i + 2, true)
    else i
  }

  /** A word with its escapes resolved: a backslash gives the next byte, a dollar sign only another dollar sign. */
  function Unescaped(w: seq<Byte>): Option<seq<Byte>>
    decreases |w|
  {
    if w == [] then Some([])
    else if w[0] == BACKSLASH || w[0] == DOLLAR then
      if |w| == 1 || (w[0] == DOLLAR && w[1] != DOLLAR) then None
      else (match Unescaped(w[2..]) case None => None case Some(r) => Some([w[1]] + r))
    else (match Unescaped(w[1..]) case None => None case Some(r) => Some([w[0]] + r))
  }

  /** The words from `i` on: targets up to a colon, then dependencies up to the end of the line. */
  function Words(s: seq<Byte>, i: nat, colon: bool): Outcome
    requires i <= |s|
    decreases |s| - i
  {
    var e := WordEnd(s, i);
    if e == |s| then Bad
    else if colon && s[e] == COLON then Bad
    else if !colon && (s[e] == NUL || s[e] == NEWLINE) then Bad
    else
      match Unescaped(s[i..e])
      case None => Bad
      case Some(w) =>
        var t := if e == i then [] else [if colon then Dep(w) else Target(w)];
        if s[e] == NUL || s[e] == NEWLINE then Tokens(t)
        else Before(t, Words(s, SkipSpace(s, e + 1, true), colon || s[e] == COLON))
  }

  /** handle_line. */
  function LineTokens(s: seq<Byte>): Outcome {
    var i := SkipSpace(s, 0, false);
    if i == |s| || s[i] == NUL || s[i] == NEWLINE then Tokens([]) else Words(s, i, false)
  }

  // Whole files

  /** The length of the first logical line: physical lines up to one that does not continue; none when the text ends
      before that. */
  function LogicalLine(text: seq<Byte>): (n: Option<nat>)
    requires text != []
    ensures n.Some? ==> 0 < n.value <= |text|
    decreases |text|
  {
    var k := FirstLine(text);
    if !Continues(text[..k]) then Some(k)
    else if k == |text| then None
    else match LogicalLine(text[k..]) case None => None case Some(m) => Some(k + m)
  }

  /** incyymineparse: the tokens of each logical line in turn. */
  function FileTokens(text: seq<Byte>): Option<seq<seq<Token>>>
    decreases |text|
  {
    if text == [] then Some([])
    else
      match LogicalLine(text)
      case None => None
      case Some(n) =>
        match LineTokens(text[..n] + [NUL])
        case Bad => None
        case Tokens(t) =>
          match FileTokens(text[n..])
          case None => None
          case Some(rest) => Some([t] + rest)
  }
}
