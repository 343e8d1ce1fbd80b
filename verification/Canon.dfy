/** Path normalisation as a stack of components. */
module Canon {
  import opened Bytes

  const DOT: Byte := 46
  const SLASH: Byte := 47

  type Name = seq<Byte>

  const UP: Name := [DOT, DOT]
  const HERE: Name := [DOT]

  /** The position of the first slash at or after `i`, or the end. */
  function NextSlash(p: seq<Byte>, i: nat): (k: nat)
    requires i <= |p|
    ensures i <= k <= |p| && (k < |p| ==> p[k] == SLASH)
    ensures forall j | i <= j < k :: p[j] != SLASH
    decreases |p| - i
  {
    if i < |p| && p[i] != SLASH then NextSlash(p, i + 1) else i
  }

  /** The parts between slashes, empty ones included. */
  function Components(p: seq<Byte>): (c: seq<Name>)
    ensures c != []
    decreases |p|
  {
    var k := NextSlash(p, 0);
    if k == |p| then [p] else [p[..k]] + Components(p[k + 1..])
  }

  /** Names with slashes between them. */
  function Join(st: seq<Name>): seq<Byte>
    decreases |st|
  {
    if st == [] then []
    else if |st| == 1 then st[0]
    else Join(st[..|st| - 1]) + [SLASH] + st[|st| - 1]
  }

  /** What the loop of canon does with one component: `..` removes the last of two or more names, whatever it is. */
  function Push(abs: bool, st: seq<Name>, c: Name): seq<Name> {
    if c == [] || c == HERE then st
    else if c != UP then st + [c]
    else if |st| >= 2 then st[..|st| - 1]
    else if |st| == 1 then if st[0] == UP then st + [UP] else []
    else if abs then []
    else [UP]
  }

  function Resolve(abs: bool, st: seq<Name>, cs: seq<Name>): seq<Name>
    decreases |cs|
  {
    if cs == [] then st else Resolve(abs, Push(abs, st, cs[0]), cs[1..])
  }

  predicate IsAbs(p: seq<Byte>) {
    p != [] && p[0] == SLASH
  }

  function Render(abs: bool, st: seq<Name>): seq<Byte> {
    if abs then [SLASH] + Join(st) else if st == [] then HERE else Join(st)
  }

  function StackOf(p: seq<Byte>): seq<Name> {
    Resolve(IsAbs(p), [], Components(p))
  }

  /** canon. */
  function CanonPath(p: seq<Byte>): seq<Byte> {
    Render(IsAbs(p), StackOf(p))
  }

  // Normal form

  predicate Named(c: Name) {
    c != [] && c != HERE && SLASH !in c
  }

  /** The number of leading `..` names. */
  function Ups(st: seq<Name>): (u: nat)
    ensures u <= |st|
    ensures forall i | 0 <= i < u :: st[i] == UP
    ensures u < |st| ==> st[u] != UP
  {
    if st == [] || st[0] != UP then 0 else 1 + Ups(st[1..])
  }

  /** No empty or `.` name; `..` only in front, at most twice, and never in an absolute path. */
  predicate Normal(abs: bool, st: seq<Name>) {
    && (forall i | 0 <= i < |st| :: Named(st[i]))
    && (forall i | Ups(st) <= i < |st| :: st[i] != UP)
    && Ups(st) <= if abs then 0 else 2
  }

  lemma {:induction false} UpsAre(st: seq<Name>, u: nat)
    requires u <= |st| && (forall i | 0 <= i < u :: st[i] == UP) && (u < |st| ==> st[u] != UP)
    ensures Ups(st) == u
    decreases u
  {
    if u > 0 {
      UpsAre(st[1..], u - 1);
    }
  }

  lemma PushNormal(abs: bool, st: seq<Name>, c: Name)
    requires Normal(abs, st) && SLASH !in c
    ensures Normal(abs, Push(abs, st, c))
  {
    var q := Push(abs, st, c);
    var u := Ups(st);
    if c == [] || c == HERE {
    } else if c != UP {
      UpsAre(q, u);
    } else if |st| >= 2 {
      UpsAre(q, if u == |st| then u - 1 else u);
    } else if |st| == 1 && st[0] == UP {
      UpsAre(q, 2);
    } else if |st| == 0 && !abs {
      UpsAre(q, 1);
    }
  }

  lemma {:induction false} ComponentsPlain(p: seq<Byte>)
    ensures forall i | 0 <= i < |Components(p)| :: SLASH !in Components(p)[i]
    decreases |p|
  {
    var k := NextSlash(p, 0);
    if k < |p| {
      ComponentsPlain(p[k + 1..]);
    }
  }

  lemma {:induction false} ResolveNormal(abs: bool, st: seq<Name>, cs: seq<Name>)
    requires Normal(abs, st) && forall i | 0 <= i < |cs| :: SLASH !in cs[i]
    ensures Normal(abs, Resolve(abs, st, cs))
    decreases |cs|
  {
    if cs != [] {
      PushNormal(abs, st, cs[0]);
      ResolveNormal(abs, Push(abs, st, cs[0]), cs[1..]);
    }
  }

  /** canon computes a normal form. */
  lemma CanonNormal(p: seq<Byte>)
    ensures Normal(IsAbs(p), StackOf(p))
  {
    ComponentsPlain(p);
    ResolveNormal(IsAbs(p), [], Components(p));
  }

  // Rendering and splitting

  lemma {:induction false} NoSlash(p: seq<Byte>, i: nat)
    requires i <= |p| && forall j | i <= j < |p| :: p[j] != SLASH
    ensures NextSlash(p, i) == |p|
    decreases |p| - i
  {
    if i < |p| {
      NoSlash(p, i + 1);
    }
  }

  lemma {:induction false} FirstSlash(p: seq<Byte>, i: nat, k: nat)
    requires i <= k < |p| && p[k] == SLASH && forall j | i <= j < k :: p[j] != SLASH
    ensures NextSlash(p, i) == k
    decreases k - i
  {
    if i < k {
      FirstSlash(p, i + 1, k);
    }
  }

  /** A name, a slash and a path split into the name and the parts of the path. */
  lemma ComponentsCons(c: Name, p: seq<Byte>)
    requires SLASH !in c
    ensures Components(c + [SLASH] + p) == [c] + Components(p)
  {
    var q := c + [SLASH] + p;
    forall j | 0 <= j < |c|
      ensures q[j] != SLASH
    {
      assert c[j] in c;
    }
    FirstSlash(q, 0, |c|);
    assert q[..|c|] == c && q[|c| + 1..] == p;
  }

  lemma ComponentsOne(c: Name)
    requires SLASH !in c
    ensures Components(c) == [c]
  {
    NoSlash(c, 0);
  }

  lemma {:induction false} JoinCons(c: Name, st: seq<Name>)
    requires st != []
    ensures Join([c] + st) == c + [SLASH] + Join(st)
    decreases |st|
  {
    var a := [c] + st;
    if |st| == 1 {
      assert a[..1] == [c];
    } else {
      var init := st[..|st| - 1];
      assert a[..|a| - 1] == [c] + init;
      JoinCons(c, init);
      assert c + [SLASH] + Join(init) + [SLASH] + st[|st| - 1] == c + [SLASH] + (Join(init) + [SLASH] + st[|st| - 1]);
    }
  }

  lemma {:induction false} JoinSplits(st: seq<Name>)
    requires st != [] && forall i | 0 <= i < |st| :: SLASH !in st[i]
    ensures Components(Join(st)) == st
    decreases |st|
  {
    if |st| == 1 {
      ComponentsOne(st[0]);
    } else {
      assert st == [st[0]] + st[1..];
      JoinCons(st[0], st[1..]);
      JoinSplits(st[1..]);
      ComponentsCons(st[0], Join(st[1..]));
    }
  }

  /** A path with a slash in it is its first name, the slash and the rest. */
  lemma FirstName(a: seq<Byte>)
    requires NextSlash(a, 0) < |a|
    ensures var k := NextSlash(a, 0); a == a[..k] + [SLASH] + a[k + 1..] && SLASH !in a[..k]
  {
    hide NextSlash;
    Cut(a, NextSlash(a, 0));
    NoneBefore(a, NextSlash(a, 0));
  }

  lemma NoneBefore(a: seq<Byte>, k: nat)
    requires k <= |a| && forall j | 0 <= j < k :: a[j] != SLASH
    ensures SLASH !in a[..k]
  {
  }

  /** Two paths with a slash between split into the parts of both. */
  lemma {:induction false} ComponentsJoined(a: seq<Byte>, b: seq<Byte>)
    ensures Components(a + [SLASH] + b) == Components(a) + Components(b)
    decreases |a|
  {
    hide Components, NextSlash;
    var k := NextSlash(a, 0);
    if k == |a| {
      assert SLASH !in a;
      ComponentsCons(a, b);
      ComponentsOne(a);
    } else {
      var c, rest := a[..k], a[k + 1..];
      FirstName(a);
      ComponentsJoined(rest, b);
      var front := c + [SLASH];
      Regroup(front + rest, [SLASH], b);
      Regroup(front, rest, [SLASH] + b);
      Regroup(rest, [SLASH], b);
      ComponentsCons(c, rest + [SLASH] + b);
      ComponentsCons(c, rest);
      Regroup([c], Components(rest), Components(b));
    }
  }

  lemma {:induction false} ResolveBoth(abs: bool, st: seq<Name>, a: seq<Name>, b: seq<Name>)
    ensures Resolve(abs, st, a + b) == Resolve(abs, Resolve(abs, st, a), b)
    decreases |a|
  {
    if a == [] {
      assert a + b == b;
    } else {
      assert (a + b)[1..] == a[1..] + b;
      ResolveBoth(abs, Push(abs, st, a[0]), a[1..], b);
    }
  }

  /** Names other than `..` pile up. */
  lemma {:induction false} ResolveNames(abs: bool, st: seq<Name>, cs: seq<Name>)
    requires forall i | 0 <= i < |cs| :: Named(cs[i]) && cs[i] != UP
    ensures Resolve(abs, st, cs) == st + cs
    decreases |cs|
  {
    if cs != [] {
      ResolveNames(abs, st + [cs[0]], cs[1..]);
      assert st + [cs[0]] + cs[1..] == st + cs;
    }
  }

  /** A normal stack resolves to itself. */
  lemma ResolveSelf(abs: bool, st: seq<Name>)
    requires Normal(abs, st)
    ensures Resolve(abs, [], st) == st
  {
    var u := Ups(st);
    assert st == st[..u] + st[u..];
    ResolveBoth(abs, [], st[..u], st[u..]);
    if u == 1 {
      assert st[..u] == [UP] && st[..u][1..] == [];
      assert Resolve(abs, Push(abs, [], UP), []) == [UP];
    } else if u == 2 {
      assert st[..u] == [UP, UP] && st[..u][1..] == [UP] && [UP][1..] == [];
      assert Resolve(abs, [UP], [UP]) == Resolve(abs, [UP, UP], []) == [UP, UP];
    }
    assert Resolve(abs, [], st[..u]) == st[..u];
    ResolveNames(abs, st[..u], st[u..]);
  }

  lemma RenderStack(abs: bool, st: seq<Name>)
    requires Normal(abs, st)
    ensures Render(abs, st) != [] && IsAbs(Render(abs, st)) == abs && StackOf(Render(abs, st)) == st
  {
    var r := Render(abs, st);
    ResolveSelf(abs, st);
    if st != [] {
      JoinSplits(st);
      JoinStart(st);
    }
    if abs {
      ComponentsCons([], Join(st));
      assert r == [] + [SLASH] + Join(st);
      assert ([[]] + Components(Join(st)))[1..] == Components(Join(st));
      if st == [] {
        ComponentsOne([]);
        assert Resolve(true, [], [[]]) == Resolve(true, [], [[]][1..]) == [];
      }
    } else if st == [] {
      ComponentsOne(HERE);
      assert [HERE][1..] == [];
      assert Resolve(false, [], [HERE]) == Resolve(false, [], []) == [];
    }
  }

  lemma {:induction false} JoinStart(st: seq<Name>)
    requires st != [] && forall i | 0 <= i < |st| :: Named(st[i])
    ensures Join(st) != [] && Join(st)[0] != SLASH
    decreases |st|
  {
    assert st[0][0] in st[0];
    if |st| > 1 {
      JoinStart(st[..|st| - 1]);
    }
  }

  /** canon is idempotent. */
  lemma CanonIdempotent(p: seq<Byte>)
    ensures CanonPath(CanonPath(p)) == CanonPath(p)
  {
    CanonNormal(p);
    RenderStack(IsAbs(p), StackOf(p));
  }

  // Meaning

  /** What one component means: `..` leads out of the last name, or out of the starting point. */
  function Follow(abs: bool, st: seq<Name>, c: Name): seq<Name> {
    if c == [] || c == HERE then st
    else if c != UP then st + [c]
    else if st != [] && st[|st| - 1] != UP then st[..|st| - 1]
    else if abs then st
    else st + [UP]
  }

  function FollowAll(abs: bool, st: seq<Name>, cs: seq<Name>): seq<Name>
    decreases |cs|
  {
    if cs == [] then st else FollowAll(abs, Follow(abs, st, cs[0]), cs[1..])
  }

  /** The place a path leads to, going by its names alone: so many levels up, then down by names. */
  function Location(p: seq<Byte>): seq<Name> {
    FollowAll(IsAbs(p), [], Components(p))
  }

  /** `..` only in front, and never in an absolute place. */
  predicate Placed(abs: bool, st: seq<Name>) {
    (forall i | Ups(st) <= i < |st| :: st[i] != UP) && (abs ==> Ups(st) == 0)
  }

  /** Following a component never takes back a level up. */
  lemma FollowUps(abs: bool, st: seq<Name>, c: Name)
    requires Placed(abs, st)
    ensures Placed(abs, Follow(abs, st, c)) && Ups(Follow(abs, st, c)) >= Ups(st)
    ensures Ups(Follow(abs, st, c)) <= 2 ==> Push(abs, st, c) == Follow(abs, st, c)
  {
    var q, u := Follow(abs, st, c), Ups(st);
    if c == [] || c == HERE {
    } else if c != UP {
      UpsAre(q, u);
    } else if st != [] && st[|st| - 1] != UP {
      UpsAre(q, u);
      assert |st| == 1 ==> q == [];
    } else {
      assert u == |st|;
      if !abs {
        UpsAre(q, u + 1);
        assert |st| == 0 ==> q == [UP];
      }
    }
  }

  lemma {:induction false} ResolveFollows(abs: bool, st: seq<Name>, cs: seq<Name>)
    requires Placed(abs, st)
    ensures Placed(abs, FollowAll(abs, st, cs)) && Ups(FollowAll(abs, st, cs)) >= Ups(st)
    ensures Ups(FollowAll(abs, st, cs)) <= 2 ==> Resolve(abs, st, cs) == FollowAll(abs, st, cs)
    decreases |cs|
  {
    if cs != [] {
      FollowUps(abs, st, cs[0]);
      ResolveFollows(abs, Follow(abs, st, cs[0]), cs[1..]);
    }
  }

  /** A normal stack leads to itself once rendered. */
  lemma RenderedLocation(abs: bool, st: seq<Name>)
    requires Normal(abs, st)
    ensures Location(Render(abs, st)) == st
  {
    hide Join, Components, FollowAll;
    RenderStack(abs, st);
    FollowSelf(abs, st);
    if st != [] {
      JoinSplits(st);
    }
    if abs {
      assert Render(abs, st) == [] + [SLASH] + Join(st);
      ComponentsCons([], Join(st));
      SkipFirst(abs, [], Components(Join(st)));
      if st == [] {
        EmptyParts();
      }
    } else if st == [] {
      ComponentsOne(HERE);
      SkipFirst(abs, HERE, []);
      assert [HERE] + [] == [HERE];
    }
  }

  lemma SkipFirst(abs: bool, c: Name, cs: seq<Name>)
    requires c == [] || c == HERE
    ensures FollowAll(abs, [], [c] + cs) == FollowAll(abs, [], cs)
    ensures FollowAll(abs, [], []) == []
  {
    assert ([c] + cs)[1..] == cs;
  }

  lemma EmptyParts()
    ensures FollowAll(true, [], Components(Join([]))) == []
  {
    var none: Name := [];
    ComponentsOne(none);
    SkipFirst(true, none, []);
    assert [none] + [] == [none];
  }

  /** canon keeps the place a path leads to exactly when that is at most two levels above the starting point. */
  lemma CanonKeepsLocation(p: seq<Byte>)
    ensures Location(CanonPath(p)) == Location(p) <==> Ups(Location(p)) <= 2
    ensures IsAbs(p) ==> Ups(Location(p)) == 0
  {
    CanonNormal(p);
    RenderedLocation(IsAbs(p), StackOf(p));
    ResolveFollows(IsAbs(p), [], Components(p));
  }

  lemma FollowSelf(abs: bool, st: seq<Name>)
    requires Normal(abs, st)
    ensures FollowAll(abs, [], st) == st
  {
    assert [] + st == st;
    FollowGrows(abs, [], st);
  }

  lemma {:induction false} FollowGrows(abs: bool, a: seq<Name>, b: seq<Name>)
    requires Normal(abs, a + b)
    ensures FollowAll(abs, a, b) == a + b
    decreases |b|
  {
    if b == [] {
      assert a + b == a;
    } else {
      var st := a + b;
      assert st[|a|] == b[0];
      assert a != [] ==> st[|a| - 1] == a[|a| - 1];
      assert Follow(abs, a, b[0]) == a + [b[0]];
      assert a + [b[0]] + b[1..] == st;
      FollowGrows(abs, a + [b[0]], b[1..]);
    }
  }
}
