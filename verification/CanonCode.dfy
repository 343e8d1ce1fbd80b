/** canon, construct_backpath and neighpath on character buffers. */
module CanonCode {
  import opened Bytes
  import opened Canon
  import opened Neighbour

  /** strchr for a slash, or the end. */
  method SlashFrom(s: seq<Byte>, i: nat) returns (k: nat)
    requires i <= |s|
    ensures k == NextSlash(s, i)
  {
    k := i;
    while k < |s| && s[k] != SLASH
      invariant i <= k <= |s| && NextSlash(s, k) == NextSlash(s, i)
    {
      k := k + 1;
    }
  }

  lemma {:induction false} NextSlashFrom(s: seq<Byte>, i: nat, j: nat)
    requires j <= |s| && i <= |s| - j
    ensures NextSlash(s, j + i) == j + NextSlash(s[j..], i)
    decreases |s| - j - i
  {
    if j + i < |s| && s[j + i] != SLASH {
      NextSlashFrom(s, i + 1, j);
    }
  }

  /** The first part of what is left, and the rest. */
  lemma NextPart(abs: bool, st: seq<Name>, s: seq<Byte>, p: nat)
    requires p <= |s|
    ensures var e := NextSlash(s, p);
      Resolve(abs, st, Components(s[p..])) ==
        Resolve(abs, Push(abs, st, s[p..e]), Components(s[if e == |s| then e else e + 1..]))
    ensures SLASH !in s[p..NextSlash(s, p)]
  {
    hide Resolve, Push, Components, NextSlash;
    var e := NextSlash(s, p);
    SplitPart(s, p);
    var c := s[p..e];
    if e == |s| {
      Unfold(abs, st, c, []);
      NoMore(abs, Push(abs, st, c), s);
    } else {
      Unfold(abs, st, c, Components(s[e + 1..]));
    }
  }

  lemma FirstPart(q: seq<Byte>)
    ensures var k := NextSlash(q, 0);
      Components(q) == [if k == |q| then q else q[..k]] + if k == |q| then [] else Components(q[k + 1..])
  {
    hide NextSlash;
    assert [q] + [] == [q];
  }

  lemma SplitPart(s: seq<Byte>, p: nat)
    requires p <= |s|
    ensures var e := NextSlash(s, p);
      Components(s[p..]) == [s[p..e]] + if e == |s| then [] else Components(s[e + 1..])
  {
    hide NextSlash, Components;
    var e := NextSlash(s, p);
    NextSlashFrom(s, 0, p);
    FirstPart(s[p..]);
    if e < |s| {
      SliceAgain(s, p, e - p);
      SliceAgain(s, p, e - p + 1);
    } else {
      assert s[p..] == s[p..e];
    }
  }

  lemma NoMore(abs: bool, st: seq<Name>, s: seq<Byte>)
    ensures Resolve(abs, st, Components(s[|s|..])) == Resolve(abs, st, []) == st
  {
    assert s[|s|..] == [];
    var none: Name := [];
    ComponentsOne(none);
    Unfold(abs, st, none, []);
    assert [none] + [] == [none];
  }

  /** strrchr for a slash among the `idx` bytes from `base` on. */
  method LastSlash(neu: array<Byte>, base: nat, idx: nat, ghost st: seq<Name>, abs: bool) returns (found: bool, k: nat)
    requires base + idx <= neu.Length && neu[base..base + idx] == Join(st) && Normal(abs, st)
    ensures found <==> |st| >= 2
    ensures found ==> k < idx && Join(st[..|st| - 1]) == neu[base..base + k] && idx - k == 1 + |st[|st| - 1]|
    ensures idx == 0 <==> st == []
  {
    StackText(abs, st);
    k := idx;
    while k > 0
      invariant k <= idx && forall j | base + k <= j < base + idx :: neu[j] != SLASH
    {
      k := k - 1;
      assert neu[base + k] == Join(st)[k];
      if neu[base + k] == SLASH {
        LastIsThere(st, k);
        assert neu[base..base + k] == Join(st)[..k];
        return true, k;
      }
    }
    if |st| >= 2 {
      JoinHasSlash(st);
    }
    return false, 0;
  }

  lemma JoinHasSlash(st: seq<Name>)
    requires |st| >= 2
    ensures exists j :: 0 <= j < |Join(st)| && Join(st)[j] == SLASH
  {
    JoinLast(st);
    assert Join(st)[|Join(st[..|st| - 1])|] == SLASH;
  }

  lemma StackText(abs: bool, st: seq<Name>)
    requires Normal(abs, st)
    ensures Join(st) == [] <==> st == []
    ensures forall i | 0 <= i < |st| :: SLASH !in st[i] && st[i] != []
  {
    if st != [] {
      JoinStart(st);
    }
  }

  /** The last slash of a joined stack stands before its last name. */
  lemma LastIsThere(st: seq<Name>, k: nat)
    requires |st| >= 2 && SLASH !in st[|st| - 1] && k < |Join(st)| && Join(st)[k] == SLASH
    requires forall j | k < j < |Join(st)| :: Join(st)[j] != SLASH
    ensures k == |Join(st[..|st| - 1])| && Join(st)[..k] == Join(st[..|st| - 1])
    ensures |Join(st)| - k == 1 + |st[|st| - 1]|
  {
    hide Join;
    var init, last := Join(st[..|st| - 1]), st[|st| - 1];
    assert Join(st) == init + [SLASH] + last by {
      JoinLast(st);
    }
    assert Join(st)[|init|] == SLASH;
  }

  lemma JoinLast(st: seq<Name>)
    requires |st| >= 2
    ensures Join(st) == Join(st[..|st| - 1]) + [SLASH] + st[|st| - 1]
  {
  }

  /** Write `s` at `at`, and a terminator after it. */
  method Put(neu: array<Byte>, at: nat, s: seq<Byte>)
    requires at + |s| < neu.Length
    modifies neu
    ensures neu[at..at + |s|] == s && neu[at + |s|] == NUL
    ensures forall k | 0 <= k < neu.Length && (k < at || k > at + |s|) :: neu[k] == old(neu[k])
  {
    for k := 0 to |s|
      invariant neu[at..at + k] == s[..k]
      invariant forall j | 0 <= j < neu.Length && (j < at || j > at + |s|) :: neu[j] == old(neu[j])
    {
      neu[at + k] := s[k];
    }
    neu[at + |s|] := NUL;
  }

  /** A second `..` after the first. */
  method SecondUp(neu: array<Byte>, base: nat)
    requires base + 5 < neu.Length && neu[base..base + 2] == UP
    modifies neu
    ensures neu[base..base + 5] == Join([UP, UP]) && neu[base + 5] == NUL
    ensures forall k | 0 <= k < neu.Length && (k < base || k > base + 5) :: neu[k] == old(neu[k])
  {
    Put(neu, base + 2, [SLASH] + UP);
    assert neu[base..base + 5] == neu[base..base + 2] + neu[base + 2..base + 5];
    assert [UP, UP][..1] == [UP];
    Regroup(UP, [SLASH], UP);
  }

  /** The `..` branch of canon. */
  method UpStep(neu: array<Byte>, base: nat, idx: nat, abs: bool, limit: nat, ghost st: seq<Name>) returns (idx': nat)
    requires limit < neu.Length && base + idx <= limit && neu[base..base + idx] == Join(st) && Normal(abs, st)
    requires idx > 0 ==> base + idx + 3 <= limit
    requires idx == 0 && !abs ==> base + 2 <= limit
    requires neu[base + idx] == NUL
    modifies neu
    ensures idx' <= (if idx > 0 then idx + 3 else if abs then 0 else 2) &&
      neu[base..base + idx'] == Join(Push(abs, st, UP))
    ensures base + idx' <= limit && neu[base + idx'] == NUL
    ensures forall k | 0 <= k < neu.Length && (k < base || k > limit) :: neu[k] == old(neu[k])
  {
    var found, k := LastSlash(neu, base, idx, st, abs);
    StackText(abs, st);
    if !found {
      if idx != 0 && (idx != 2 || neu[base + idx - 1] != DOT || neu[base + idx - 2] != DOT) {
        assert st[0] == neu[base..base + idx] && st[0] != UP;
        neu[base] := NUL;
        return 0;
      }
      if idx == 0 {
        if abs {
          return 0;
        }
        Put(neu, base, UP);
        return 2;
      }
      assert st[0] == neu[base..base + idx] == UP;
      SecondUp(neu, base);
      assert st + [UP] == [UP, UP];
      return idx + 3;
    }
    ghost var text := neu[base..base + idx];
    var last, before := neu[base + idx - 1], neu[base + idx - 2];
    if idx - k == 2 && last == DOT && before == DOT {
      NotADot(text, st, abs);
      assert false;
    }
    neu[base + k] := NUL;
    return k;
  }

  /** The guard that would add a third `..` asks for a last name of one byte that is a dot, and no name is. */
  lemma NotADot(text: seq<Byte>, st: seq<Name>, abs: bool)
    requires Normal(abs, st) && |st| >= 2 && text == Join(st)
    ensures text != [] && (|st[|st| - 1]| == 1 ==> text[|text| - 1] != DOT)
  {
    JoinLast(st);
    assert Named(st[|st| - 1]);
    if |st[|st| - 1]| == 1 {
      assert st[|st| - 1] == [text[|text| - 1]];
    }
  }

  /** Appending a name. */
  method NameStep(neu: array<Byte>, base: nat, idx: nat, c: Name, abs: bool, limit: nat, ghost st: seq<Name>)
    returns (idx': nat)
    requires base + idx <= limit < neu.Length && neu[base..base + idx] == Join(st) && Normal(abs, st)
    requires c != [] && c != HERE && c != UP && base + idx + (if idx > 0 then 1 else 0) + |c| <= limit
    modifies neu
    ensures idx' == idx + (if idx > 0 then 1 else 0) + |c| && neu[base..base + idx'] == Join(Push(abs, st, c))
    ensures neu[base + idx'] == NUL
    ensures forall k | 0 <= k < neu.Length && (k < base || k > limit) :: neu[k] == old(neu[k])
  {
    StackText(abs, st);
    idx' := idx;
    ghost var was := neu[base..base + idx];
    if idx' != 0 {
      neu[base + idx'] := SLASH;
      idx' := idx' + 1;
    }
    ghost var front := neu[base..base + idx'];
    assert front == was + if idx > 0 then [SLASH] else [];
    Put(neu, base + idx', c);
    assert neu[base..base + idx' + |c|] == front + c by {
      assert neu[base..base + idx' + |c|] == neu[base..base + idx'] + neu[base + idx'..base + idx' + |c|];
      assert neu[base..base + idx'] == front;
    }
    JoinMore(st, c);
    idx' := idx' + |c|;
  }

  lemma JoinMore(st: seq<Name>, c: Name)
    ensures Join(st + [c]) == if st == [] then c else Join(st) + [SLASH] + c
  {
    assert (st + [c])[..|st|] == st;
  }

  /** What the loop of canon keeps: the buffer holds the stack so far, below what has been read. */
  ghost predicate Going(s: seq<Byte>, abs: bool, st: seq<Name>, p: nat, now: seq<Byte>, base: nat, idx: nat) {
    && p <= |s| < |now| && base == (if abs then 1 else 0) && Normal(abs, st)
    && base + idx <= |s| && now[base..base + idx] == Join(st) && now[base + idx] == NUL
    && (if p == 0 then idx == 0 else base + idx + (if idx > 0 && p < |s| then 1 else 0) <= p)
    && Resolve(abs, st, Components(s[p..])) == Resolve(abs, [], Components(s))
  }

  /** One part of the path. */
  method OnePart(s: seq<Byte>, abs: bool, p: nat, neu: array<Byte>, base: nat, idx: nat, ghost st: seq<Name>)
      returns (p': nat, idx': nat, ghost st': seq<Name>)
    requires Going(s, abs, st, p, neu[..], base, idx) && p < |s| && abs == IsAbs(s)
    modifies neu
    ensures Going(s, abs, st', p', neu[..], base, idx') && p < p'
    ensures forall k | 0 <= k < neu.Length && (k < base || k > |s|) :: neu[k] == old(neu[k])
  {
    hide Resolve, Components, Push, NextSlash, Normal, Join;
    var end := SlashFrom(s, p);
    NextPart(abs, st, s, p);
    var c := s[p..end];
    p' := if end == |s| then end else end + 1;
    idx', st' := idx, Push(abs, st, c);
    assert neu[..][base..base + idx] == neu[base..base + idx];
    StackLength(abs, st);
    PushKeeps(abs, st, c);
    if end == p || (end == p + 1 && s[p] == DOT) {
      PushNothing(abs, st, c);
    } else if end == p + 2 && s[p] == DOT && s[p + 1] == DOT {
      assert c == UP;
      idx' := UpStep(neu, base, idx, abs, |s|, st);
    } else {
      idx' := NameStep(neu, base, idx, c, abs, |s|, st);
    }
    StillGoing(s, abs, st, st', p, p', neu[..], base, idx, idx', neu[base..base + idx']);
  }

  /** Once a part has been dealt with, the loop's invariant holds past it. */
  lemma StillGoing(s: seq<Byte>, abs: bool, st: seq<Name>, st': seq<Name>, p: nat, p': nat, now: seq<Byte>, base: nat,
                   idx: nat, idx': nat, text: seq<Byte>)
    requires p < p' <= |s| < |now| && base == (if abs then 1 else 0) && Normal(abs, st')
    requires base + idx' <= |s| && base + idx' + (if idx' > 0 && p' < |s| then 1 else 0) <= p'
    requires text == now[base..base + idx'] && text == Join(st') && now[base + idx'] == NUL
    requires Resolve(abs, st, Components(s[p..])) == Resolve(abs, [], Components(s))
    requires Resolve(abs, st, Components(s[p..])) == Resolve(abs, st', Components(s[p'..]))
    ensures Going(s, abs, st', p', now, base, idx')
  {
    hide Resolve, Components, Push, NextSlash, Normal, Join;
  }

  lemma StackLength(abs: bool, st: seq<Name>)
    requires Normal(abs, st)
    ensures |Join(st)| == 0 <==> st == []
  {
    StackText(abs, st);
  }

  lemma PushKeeps(abs: bool, st: seq<Name>, c: Name)
    requires Normal(abs, st) && SLASH !in c
    ensures Normal(abs, Push(abs, st, c))
  {
    PushNormal(abs, st, c);
  }

  lemma PushNothing(abs: bool, st: seq<Name>, c: Name)
    requires c == [] || c == HERE
    ensures Push(abs, st, c) == st
  {
  }

  /** canon_buflen: the normal form of a path, in the buffer when that is long enough.  No byte past the length of the
      input, its terminator included, is written. */
  method CanonBuf(s: seq<Byte>, buf: array<Byte>) returns (neu: array<Byte>, neulen: nat)
    requires s != []
    modifies buf
    ensures neu == buf || fresh(neu)
    ensures |s| < neu.Length && neulen <= |s| && neu[..neulen] == CanonPath(s) && neu[neulen] == NUL
    ensures forall k | 0 <= k < buf.Length && (k > |s| || neu != buf) :: buf[k] == old(buf[k])
  {
    hide Resolve, Components, Push, Normal, Join;
    if buf.Length < |s| + 1 {
      neu := new Byte[|s| + 1];
    } else {
      neu := buf;
    }
    if |s| == 1 && s[0] == DOT {
      Put(neu, 0, HERE);
      neulen := 1;
      DotCanon(s);
      return;
    }
    var base, idx, p := 0, 0, 0;
    neu[0] := NUL;
    var abs := s[0] == SLASH;
    if abs {
      neu[0], neu[1] := SLASH, NUL;
      base := 1;
    }
    ghost var st: seq<Name> := [];
    StartsGoing(s, abs, neu[..], base);
    while p < |s|
      invariant 0 <= p && 0 <= idx && |s| < neu.Length
      invariant Going(s, abs, st, p, neu[..], base, idx)
      invariant abs ==> neu[0] == SLASH
      invariant forall k | 0 <= k < buf.Length && (k > |s| || neu != buf) :: buf[k] == old(buf[k])
      decreases |s| - p
    {
      p, idx, st := OnePart(s, abs, p, neu, base, idx, st);
    }
    EndsGoing(s, abs, st, neu[..], base, idx);
    if abs {
      neulen := idx + 1;
      assert neu[..neulen] == [SLASH] + neu[..][base..base + idx];
      return;
    }
    if idx == 0 {
      Put(neu, 0, HERE);
      return neu, 1;
    }
    neulen := idx;
    assert neu[..neulen] == neu[..][base..base + idx];
  }

  lemma StartsGoing(s: seq<Byte>, abs: bool, now: seq<Byte>, base: nat)
    requires s != [] && |s| < |now| && base == (if abs then 1 else 0) && now[base] == NUL
    ensures Going(s, abs, [], 0, now, base, 0)
  {
    assert s[0..] == s;
  }

  lemma EndsGoing(s: seq<Byte>, abs: bool, st: seq<Name>, now: seq<Byte>, base: nat, idx: nat)
    requires s != [] && abs == IsAbs(s) && Going(s, abs, st, |s|, now, base, idx)
    ensures st == StackOf(s) && CanonPath(s) == Render(abs, st) && now[base..base + idx] == Join(st)
    ensures (idx == 0 <==> st == []) && base + idx <= |s| < |now|
  {
    NoMore(abs, st, s);
    StackText(abs, st);
  }

  lemma DotCanon(s: seq<Byte>)
    requires s == HERE
    ensures CanonPath(s) == HERE
  {
    ComponentsOne(HERE);
    Dot([]);
  }

  function Slashes(s: seq<Byte>): nat {
    if s == [] then 0 else (if s[0] == SLASH then 1 else 0) + Slashes(s[1..])
  }

  /** strcnt. */
  method CountSlashes(s: seq<Byte>) returns (n: nat)
    ensures n == Slashes(s)
  {
    n := 0;
    assert s[0..] == s;
    for i := 0 to |s|
      invariant n + Slashes(s[i..]) == Slashes(s)
    {
      assert s[i..][1..] == s[i + 1..];
      if s[i] == SLASH {
        n := n + 1;
      }
    }
  }

  lemma {:induction false} PartsBySlashes(s: seq<Byte>)
    ensures |Components(s)| == Slashes(s) + 1
    decreases |s|
  {
    var k := NextSlash(s, 0);
    SlashesBefore(s, k);
    if k < |s| {
      PartsBySlashes(s[k + 1..]);
    }
  }

  lemma {:induction false} SlashesBefore(s: seq<Byte>, k: nat)
    requires k <= |s| && forall j | 0 <= j < k :: s[j] != SLASH
    ensures Slashes(s) == if k == |s| then 0 else Slashes(s[k..])
    ensures k < |s| && s[k] == SLASH ==> Slashes(s[k..]) == 1 + Slashes(s[k + 1..])
    decreases k
  {
    if k < |s| {
      assert s[k..][1..] == s[k + 1..];
    }
    if k > 0 {
      SlashesBefore(s[1..], k - 1);
      assert s[1..][k - 1..] == s[k..];
    } else {
      assert s[0..] == s;
    }
  }

  /** `n` times `..` and a slash. */
  function Climbs(n: nat): (t: seq<Byte>)
    ensures |t| == 3 * n
  {
    if n == 0 then [] else Climbs(n - 1) + [DOT, DOT, SLASH]
  }

  lemma {:induction false} ClimbsJoin(n: nat)
    requires n > 0
    ensures Join(Repeat(n)) == Climbs(n - 1) + UP
  {
    if n > 1 {
      ClimbsJoin(n - 1);
      RepeatAdds(n - 1, 1);
      assert Repeat(n)[..n - 1] == Repeat(n - 1) && Repeat(n)[n - 1] == UP;
      assert Climbs(n - 2) + UP + [SLASH] == Climbs(n - 1);
    }
  }

  /** construct_backpath. */
  method ConstructBackpath(front: seq<Byte>) returns (r: Result)
    requires front != []
    ensures r == Backpath(front)
  {
    hide Resolve, Components, Render, CanonPath, Climbs;
    var none := new Byte[0];
    var buf, len := CanonBuf(front, none);
    var can := buf[..len];
    if can == HERE {
      return Path(can);
    }
    CanonStarts(front);
    if can[0] == SLASH {
      return Abort;
    }
    if can[0] == DOT && |can| >= 2 && can[1] == DOT && (|can| == 2 || can[2] == SLASH) {
      return Abort;
    }
    var slashes := CountSlashes(can);
    PartsBySlashes(can);
    ClimbsJoin(slashes + 1);
    var text := WriteClimbs(slashes + 1);
    return Path(text);
  }

  /** The writing loop of construct_backpath. */
  method WriteClimbs(n: nat) returns (text: seq<Byte>)
    requires n > 0
    ensures text == Climbs(n - 1) + UP
  {
    hide Climbs;
    var cnt := n;
    var ret := new Byte[3 * n + 1];
    var ptr := 0;
    ClimbsStep(0);
    while cnt > 1
      invariant 1 <= cnt <= n && ptr == 3 * (n - cnt) && ret[..ptr] == Climbs(n - cnt)
    {
      Put(ret, ptr, [DOT, DOT, SLASH]);
      assert ret[..ptr + 3] == ret[..ptr] + [DOT, DOT, SLASH];
      ptr, cnt := ptr + 3, cnt - 1;
      ClimbsStep(n - cnt);
    }
    Put(ret, ptr, UP);
    assert ret[..ptr + 2] == ret[..ptr] + UP;
    text := ret[..ptr + 2];
  }

  lemma ClimbsStep(n: nat)
    ensures Climbs(n) == if n == 0 then [] else Climbs(n - 1) + [DOT, DOT, SLASH]
  {
  }

  /** How a canonical path starts tells whether its first part is `..`. */
  lemma CanonStarts(front: seq<Byte>)
    ensures var c := CanonPath(front);
      c != [] && (Components(c)[0] == UP <==> |c| >= 2 && c[0] == DOT && c[1] == DOT && (|c| == 2 || c[2] == SLASH))
  {
    var c := CanonPath(front);
    CanonNormal(front);
    RenderStack(IsAbs(front), StackOf(front));
    StartsUp(c);
  }

  lemma StartsUp(c: seq<Byte>)
    ensures Components(c)[0] == UP <==> |c| >= 2 && c[0] == DOT && c[1] == DOT && (|c| == 2 || c[2] == SLASH)
  {
    hide Components, NextSlash;
    var k := NextSlash(c, 0);
    assert c[0..] == c;
    SplitPart(c, 0);
    assert Components(c)[0] == c[..k];
    if |c| >= 2 && c[0] == DOT && c[1] == DOT && (|c| == 2 || c[2] == SLASH) {
      if |c| == 2 {
        NoSlash(c, 0);
      } else {
        FirstSlash(c, 0, 2);
      }
      assert c[..2] == UP;
    }
    if c[..k] == UP {
      FirstTwo(c, k);
    }
  }

  lemma FirstTwo(c: seq<Byte>, k: nat)
    requires k <= |c| && c[..k] == UP
    ensures k == 2 && c[0] == DOT && c[1] == DOT
  {
    assert c[0] == c[..k][0] && c[1] == c[..k][1];
  }

  lemma {:induction false} JoinComponents(p: seq<Byte>)
    ensures Join(Components(p)) == p
    decreases |p|
  {
    var k := NextSlash(p, 0);
    if k < |p| {
      JoinComponents(p[k + 1..]);
      JoinCons(p[..k], Components(p[k + 1..]));
      assert p == p[..k] + [SLASH] + p[k + 1..];
    }
  }

  /** For the loop of neighpath, no part and one empty part are the same. */
  lemma MeetNone(x: seq<Name>)
    ensures Meet([[]], x) == Meet([], x) && Meet(x, [[]]) == Meet(x, [])
  {
    var none: seq<Name> := [[]];
    assert Join(none) == [] && Join([]) == [];
    assert |none| == 1 && none[0] == [];
  }

  function After(s: seq<Byte>, e: nat): (n: nat)
    requires e <= |s|
    ensures e <= n <= |s| && (e < |s| ==> e < n)
  {
    if e == |s| then e else e + 1
  }

  lemma MeetEqual(c: Name, x: seq<Name>, y: seq<Name>)
    requires c != []
    ensures Meet([c] + x, [c] + y) == Meet(x, y)
  {
    assert ([c] + x)[1..] == x && ([c] + y)[1..] == y;
  }

  /** `b` is `a`, or is one empty part where `a` has none left. */
  predicate AtEnd(a: seq<Name>, b: seq<Name>) {
    b == a || (a == [] && b == [[]])
  }

  lemma MeetAtEnd(x: seq<Name>, px: seq<Name>, y: seq<Name>, fy: seq<Name>)
    requires AtEnd(x, px) && AtEnd(y, fy)
    ensures Meet(x, y) == Meet(px, fy)
  {
    hide Meet;
    MeetNone(y);
    MeetNone(px);
  }

  /** The part of a path at `a`, and what comes after it. */
  lemma PartsAt(s: seq<Byte>, a: nat) returns (x: seq<Name>)
    requires a <= |s|
    ensures var e := NextSlash(s, a); Components(s[a..]) == [s[a..e]] + x && AtEnd(x, Components(s[After(s, e)..]))
  {
    hide Components, NextSlash;
    var e := NextSlash(s, a);
    SplitPart(s, a);
    x := if e == |s| then [] else Components(s[e + 1..]);
    EndParts(s);
  }

  /** Equal parts in front of two paths are passed over together. */
  lemma MeetStep(p: seq<Byte>, a: nat, f: seq<Byte>, b: nat)
    requires a <= |p| && b <= |f|
    requires var e, g := NextSlash(p, a), NextSlash(f, b); p[a..e] == f[b..g] && p[a..e] != []
    ensures var e, g := NextSlash(p, a), NextSlash(f, b);
      Meet(Components(p[a..]), Components(f[b..])) == Meet(Components(p[After(p, e)..]), Components(f[After(f, g)..]))
  {
    hide Components, NextSlash, Meet, AtEnd, After;
    var e, g := NextSlash(p, a), NextSlash(f, b);
    var x := PartsAt(p, a);
    var y := PartsAt(f, b);
    MeetEqual(p[a..e], x, y);
    MeetAtEnd(x, Components(p[After(p, e)..]), y, Components(f[After(f, g)..]));
  }

  lemma EndParts(s: seq<Byte>)
    ensures Components(s[|s|..]) == [[]]
  {
    assert s[|s|..] == [];
    var none: Name := [];
    ComponentsOne(none);
  }

  /** Where the parts differ, or the path is at its end. */
  lemma MeetHere(p: seq<Byte>, a: nat, f: seq<Byte>, b: nat)
    requires a <= |p| && b <= |f|
    requires var e, g := NextSlash(p, a), NextSlash(f, b); p[a..e] != f[b..g] || p[a..e] == []
    ensures var back := Backpath(if p[a..] == [] then HERE else p[a..]);
      Meet(Components(p[a..]), Components(f[b..])) ==
      if back == Abort then Abort else Path(CanonPath(back.p + [SLASH] + if f[b..] == [] then HERE else f[b..]))
  {
    hide Components, NextSlash, Backpath, CanonPath;
    SplitPart(p, a);
    SplitPart(f, b);
    JoinComponents(p[a..]);
    JoinComponents(f[b..]);
  }

  /** The loop of neighpath over two canonical paths. */
  method Walk(p: seq<Byte>, f: seq<Byte>) returns (r: Result)
    ensures r == Meet(Components(p), Components(f))
  {
    hide CanonPath, Meet, Components, Backpath, NextSlash;
    var a, b := 0, 0;
    assert p[0..] == p && f[0..] == f;
    while true
      invariant 0 <= a <= |p| && 0 <= b <= |f|
      invariant Meet(Components(p[a..]), Components(f[b..])) == Meet(Components(p), Components(f))
      decreases |p| - a
    {
      var pathslash := SlashFrom(p, a);
      var fileslash := SlashFrom(f, b);
      if pathslash - a != fileslash - b || pathslash - a == 0 || p[a..pathslash] != f[b..fileslash] {
        MeetHere(p, a, f, b);
        var bp := ConstructBackpath(if a < |p| then p[a..] else HERE);
        if bp == Abort {
          return Abort;
        }
        var rest := if b == |f| then HERE else f[b..];
        var none := new Byte[0];
        var buf, len := CanonBuf(bp.p + [SLASH] + rest, none);
        return Path(buf[..len]);
      }
      MeetStep(p, a, f, b);
      a, b := After(p, pathslash), After(f, fileslash);
    }
  }

  /** neighpath. */
  method NeighPathOf(path: seq<Byte>, file: seq<Byte>) returns (r: Result)
    ensures r == NeighPath(path, file)
  {
    hide CanonPath, Meet, Components, Backpath;
    if (file != [] && file[0] == SLASH) || path == HERE {
      return Path(file);
    }
    if |path| < |file| && path == file[..|path|] && file[|path|] == SLASH {
      return Path(file[|path| + 1..]);
    }
    if file == [] || path == [] {
      // canon gives up on an empty path.
      return Abort;
    }
    var none := new Byte[0];
    var fbuf, flen := CanonBuf(file, none);
    var pbuf, plen := CanonBuf(path, none);
    var f, p := fbuf[..flen], pbuf[..plen];
    r := Walk(p, f);
  }
}
