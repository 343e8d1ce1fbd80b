/** The way from one path to another, and when it leads back. */
module Neighbour {
  import opened Bytes
  import opened Canon

  function Repeat(n: nat): (st: seq<Name>)
    ensures |st| == n && forall i | 0 <= i < n :: st[i] == UP
  {
    if n == 0 then [] else [UP] + Repeat(n - 1)
  }

  datatype Result = Path(p: seq<Byte>) | Abort

  /** construct_backpath. */
  function Backpath(front: seq<Byte>): Result {
    var c := CanonPath(front);
    if c == HERE then Path(c)
    else if IsAbs(c) || Components(c)[0] == UP then Abort
    else Path(Join(Repeat(|Components(c)|)))
  }

  /** The loop of neighpath on the parts of both canonical paths. */
  function Meet(pc: seq<Name>, fc: seq<Name>): Result
    decreases |pc|
  {
    if pc != [] && fc != [] && pc[0] == fc[0] && pc[0] != [] then Meet(pc[1..], fc[1..])
    else
      var back := Backpath(if Join(pc) == [] then HERE else Join(pc));
      if back == Abort then Abort
      else Path(CanonPath(back.p + [SLASH] + if Join(fc) == [] then HERE else Join(fc)))
  }

  /** neighpath: the way from `path` to `file`. */
  function NeighPath(path: seq<Byte>, file: seq<Byte>): Result {
    if IsAbs(file) || path == HERE then Path(file)
    else if |path| < |file| && file[..|path|] == path && file[|path|] == SLASH then Path(file[|path| + 1..])
    else if file == [] || path == [] then Abort
    else Meet(Components(CanonPath(path)), Components(CanonPath(file)))
  }

  /** How many leading names two stacks share. */
  function Common(a: seq<Name>, b: seq<Name>): (k: nat)
    ensures k <= |a| && k <= |b| && forall i | 0 <= i < k :: a[i] == b[i]
    ensures k < |a| && k < |b| ==> a[k] != b[k]
  {
    if a != [] && b != [] && a[0] == b[0] then 1 + Common(a[1..], b[1..]) else 0
  }

  /** The stack neighpath arrives at: up out of what is left of the path, then down what is left of the file. */
  function Way(p: seq<Name>, f: seq<Name>): seq<Name> {
    ClimbThen(|p| - Common(p, f), f[Common(p, f)..])
  }

  /** `q` levels up, then down along `rest`. */
  function ClimbThen(q: nat, rest: seq<Name>): seq<Name> {
    Resolve(false, [], Repeat(q) + rest)
  }

  /** What canon makes of `n` times `..`. */
  function Climbed(n: nat): (r: nat)
    ensures r <= 2 && (r == n <==> n <= 2) && (n > 0 ==> r > 0)
  {
    if n <= 2 then n else Climbed(n - 2)
  }

  lemma {:induction false} ResolveRepeat(n: nat)
    ensures Resolve(false, [], Repeat(n)) == Repeat(Climbed(n))
  {
    if n <= 2 {
      NormalRepeat(n);
      ResolveSelf(false, Repeat(n));
    } else {
      ResolveRepeat(n - 2);
      RepeatAdds(n - 2, 2);
      ResolveBoth(false, [], Repeat(n - 2), Repeat(2));
      TwoMore(Climbed(n - 2));
    }
  }

  lemma NormalRepeat(n: nat)
    requires n <= 2
    ensures Normal(false, Repeat(n))
  {
    UpsAre(Repeat(n), n);
  }

  lemma {:induction false} RepeatAdds(a: nat, b: nat)
    ensures Repeat(a + b) == Repeat(a) + Repeat(b)
  {
  }

  lemma TwoMore(r: nat)
    requires 1 <= r <= 2
    ensures Resolve(false, Repeat(r), Repeat(2)) == Repeat(r)
  {
    var st := Repeat(r);
    assert Repeat(2)[1..] == [UP] && [UP][1..] == [];
    var a := Push(false, st, UP);
    assert Resolve(false, st, Repeat(2)) == Resolve(false, a, [UP]) == Push(false, a, UP);
    if r == 1 {
      assert a == [UP, UP];
    } else {
      assert a == [UP];
    }
    assert Push(false, a, UP) == Repeat(r);
  }

  /** Going up at most two levels from a stack of names. */
  lemma PopNames(p: seq<Name>, r: nat)
    requires r <= 2 && forall i | 0 <= i < |p| :: p[i] != UP
    ensures Resolve(false, p, Repeat(r)) == if r <= |p| then p[..|p| - r] else Repeat(r - |p|)
  {
    if r == 1 {
      assert Repeat(1)[1..] == [];
      assert Resolve(false, p, Repeat(1)) == Push(false, p, UP);
    } else if r == 2 {
      assert Repeat(2)[1..] == [UP] && [UP][1..] == [];
      assert Resolve(false, p, Repeat(2)) == Push(false, Push(false, p, UP), UP);
      assert Repeat(2) == [UP, UP];
    }
    assert Repeat(1) == [UP];
  }

  ghost predicate AllNamed(names: seq<Name>) {
    forall i | 0 <= i < |names| :: Named(names[i]) && names[i] != UP
  }

  /** `rest` is `u` times `..` and then `names`. */
  ghost predicate UpsThen(rest: seq<Name>, u: nat, names: seq<Name>) {
    rest == Repeat(u) + names
  }

  /** What `file` looks like past what it shares with `path`. */
  lemma Shape(p: seq<Name>, f: seq<Name>) returns (names: seq<Name>)
    requires Normal(false, p) && Ups(p) == 0 && Normal(false, f)
    ensures AllNamed(names)
    ensures UpsThen(f[Common(p, f)..], Ups(f), names)
    ensures Ups(f) > 0 ==> Common(p, f) == 0
  {
    var k, u := Common(p, f), Ups(f);
    assert k > 0 ==> p[0] == p[..k][0] == f[..k][0] == f[0];
    if u > 0 {
      names := f[u..];
      assert f[0..] == f && f == f[..u] + f[u..] && f[..u] == Repeat(u);
    } else {
      names := f[k..];
      assert Repeat(0) + names == names;
    }
  }

  /** The stack left of `p` after the climb. */
  function Above(p: seq<Name>, r: nat): seq<Name> {
    if r <= |p| then p[..|p| - r] else Repeat(r - |p|)
  }

  /** Climbing `n` levels as canon does it, then down by names. */
  lemma ClimbThenNames(n: nat, names: seq<Name>)
    requires forall i | 0 <= i < |names| :: Named(names[i]) && names[i] != UP
    ensures Resolve(false, [], Repeat(n) + names) == Repeat(Climbed(n)) + names
    ensures Normal(false, Repeat(Climbed(n)) + names)
  {
    hide Resolve, Push, Climbed, Repeat;
    ResolveBoth(false, [], Repeat(n), names);
    ResolveRepeat(n);
    ResolveNames(false, Repeat(Climbed(n)), names);
    UpsAre(Repeat(Climbed(n)) + names, Climbed(n));
  }

  lemma LeadsFrom(p: seq<Name>, r: nat, names: seq<Name>)
    requires r <= 2 && (forall i | 0 <= i < |p| :: p[i] != UP) && AllNamed(names)
    ensures Resolve(false, p, Repeat(r) + names) == Above(p, r) + names
  {
    hide Resolve, Push, Repeat;
    ResolveBoth(false, p, Repeat(r), names);
    PopNames(p, r);
    ResolveNames(false, Above(p, r), names);
  }

  /** Two stacks of the same shape above the same names agree only when they are the same. */
  lemma AboveAgrees(p: seq<Name>, k: nat, u: nat, r: nat)
    requires k <= |p| && (u > 0 ==> k == 0) && (forall i | 0 <= i < |p| :: p[i] != UP)
    requires r == Climbed(|p| - k + u)
    ensures Above(p, r) == p[..k] + Repeat(u) <==> |p| - k + u <= 2
  {
    var left, want := Above(p, r), p[..k] + Repeat(u);
    if |p| - k + u <= 2 {
      assert u == 0 ==> left == want;
      assert u > 0 ==> p[..0] == [] && left == want;
    } else if u > 0 && r < |p| {
      assert left[0] == p[0] != UP == want[0];
    } else {
      assert |left| != |want|;
    }
  }

  lemma UpsFirst(q: nat, u: nat, rest: seq<Name>, names: seq<Name>)
    requires rest == Repeat(u) + names
    ensures Repeat(q) + rest == Repeat(q + u) + names
  {
    hide Repeat;
    var a, b := Repeat(q), Repeat(u);
    RepeatAdds(q, u);
    Regroup(a, b, names);
  }

  lemma ClimbFrom(q: nat, u: nat, rest: seq<Name>, names: seq<Name>)
    requires AllNamed(names) && UpsThen(rest, u, names)
    ensures UpsThen(ClimbThen(q, rest), Climbed(q + u), names) && Normal(false, ClimbThen(q, rest))
  {
    hide Resolve, Repeat, Climbed, Normal, Named;
    UpsFirst(q, u, rest, names);
    ClimbThenNames(q + u, names);
  }

  /** A file in front of its last names. */
  ghost predicate EndsIn(f: seq<Name>, front: seq<Name>, names: seq<Name>) {
    f == front + names
  }

  lemma FileIs(p: seq<Name>, f: seq<Name>, names: seq<Name>)
    requires UpsThen(f[Common(p, f)..], Ups(f), names)
    ensures EndsIn(f, p[..Common(p, f)] + Repeat(Ups(f)), names)
  {
    hide Repeat, Common, Ups;
    var k := Common(p, f);
    assert p[..k] == f[..k] && f == f[..k] + f[k..];
    Regroup(p[..k], Repeat(Ups(f)), names);
  }

  lemma PlainNames(p: seq<Name>)
    requires Normal(false, p) && Ups(p) == 0
    ensures forall i | 0 <= i < |p| :: p[i] != UP
  {
  }

  lemma LeadsAlong(p: seq<Name>, r: nat, names: seq<Name>, way: seq<Name>)
    requires r <= 2 && (forall i | 0 <= i < |p| :: p[i] != UP) && AllNamed(names) && UpsThen(way, r, names)
    ensures Resolve(false, p, way) == Above(p, r) + names
  {
    LeadsFrom(p, r, names);
  }

  /** Following the climb and the descent ends at the file exactly when the climb leaves what is in front of the
      names. */
  lemma LeadsBack(p: seq<Name>, q: nat, u: nat, rest: seq<Name>, names: seq<Name>, front: seq<Name>, f: seq<Name>)
    requires (forall i | 0 <= i < |p| :: p[i] != UP) && AllNamed(names) && UpsThen(rest, u, names)
    requires EndsIn(f, front, names)
    ensures Normal(false, ClimbThen(q, rest))
    ensures Resolve(false, p, ClimbThen(q, rest)) == f <==> Above(p, Climbed(q + u)) == front
  {
    hide Resolve, Repeat, Climbed, Above, Normal, AllNamed, ClimbThen, UpsThen;
    var r, way := Climbed(q + u), ClimbThen(q, rest);
    ClimbFrom(q, u, rest, names);
    LeadsAlong(p, r, names, way);
    SameFront(Above(p, r), front, names, Resolve(false, p, way), f);
  }

  /** Appending the way to the path leads back to the file exactly when the way climbs at most two levels. */
  lemma WayInverts(p: seq<Name>, f: seq<Name>)
    requires Normal(false, p) && Ups(p) == 0 && Normal(false, f)
    ensures Normal(false, Way(p, f))
    ensures Resolve(false, p, Way(p, f)) == f <==> |p| - Common(p, f) + Ups(f) <= 2
  {
    hide Resolve, Repeat, Climbed, Common, Ups, Normal, Named, ClimbThen, Above, AllNamed, UpsThen, EndsIn;
    PlainNames(p);
    var names := Shape(p, f);
    var k, u := Common(p, f), Ups(f);
    FileIs(p, f, names);
    LeadsBack(p, |p| - k, u, f[k..], names, p[..k] + Repeat(u), f);
    AboveAgrees(p, k, u, Climbed(|p| - k + u));
  }

  lemma SameFront(a: seq<Name>, b: seq<Name>, names: seq<Name>, x: seq<Name>, y: seq<Name>)
    requires x == a + names && y == b + names
    ensures x == y <==> a == b
  {
    assert a == x[..|a|] && b == y[..|b|];
  }

  // Paths

  lemma Unfold(abs: bool, st: seq<Name>, c: Name, cs: seq<Name>)
    ensures Resolve(abs, st, [c] + cs) == Resolve(abs, Push(abs, st, c), cs)
  {
    assert ([c] + cs)[1..] == cs;
  }

  /** The parts of a relative path in normal form; the starting point itself is written with a dot. */
  function Parts(st: seq<Name>): seq<Name> {
    if st == [] then [HERE] else st
  }

  lemma RenderParts(st: seq<Name>)
    requires Normal(false, st)
    ensures Components(Render(false, st)) == Parts(st) && Join(Parts(st)) == Render(false, st)
    ensures forall a: seq<Name> :: Resolve(false, a, Parts(st)) == Resolve(false, a, st)
  {
    if st == [] {
      ComponentsOne(HERE);
      forall a: seq<Name>
        ensures Resolve(false, a, Parts(st)) == Resolve(false, a, st)
      {
        Unfold(false, a, HERE, []);
        assert [HERE] + [] == [HERE];
      }
    } else {
      JoinSplits(st);
    }
  }

  lemma SameRender(a: seq<Name>, b: seq<Name>)
    requires Normal(false, a) && Normal(false, b)
    ensures Render(false, a) == Render(false, b) <==> a == b
  {
    RenderStack(false, a);
    RenderStack(false, b);
  }

  /** Joining two relative paths resolves the second from where the first leads. */
  lemma JoinedStack(p: seq<Name>, rest: seq<Byte>)
    requires Normal(false, p)
    ensures CanonPath(Render(false, p) + [SLASH] + rest) == Render(false, Resolve(false, p, Components(rest)))
  {
    var a := Render(false, p);
    RenderStack(false, p);
    ComponentsJoined(a, rest);
    ResolveBoth(false, [], Components(a), Components(rest));
  }

  lemma BackpathOf(q: seq<Name>)
    requires Normal(false, q) && Ups(q) == 0
    ensures Backpath(Render(false, q)) == Path(Render(false, Repeat(|q|)))
  {
    RenderStack(false, q);
    RenderParts(q);
    if q != [] {
      assert Components(HERE) == [HERE] by {
        ComponentsOne(HERE);
      }
    }
  }

  lemma RepeatParts(n: nat)
    ensures Components(Render(false, Repeat(n))) == Parts(Repeat(n))
    ensures Render(false, Repeat(n)) != [] && !IsAbs(Render(false, Repeat(n)))
  {
    if n == 0 {
      ComponentsOne(HERE);
    } else {
      JoinSplits(Repeat(n));
      JoinStart(Repeat(n));
    }
  }

  lemma {:induction false} MeetSkips(pc: seq<Name>, fc: seq<Name>)
    requires forall i | 0 <= i < |pc| :: pc[i] != []
    ensures Meet(pc, fc) == Meet(pc[Common(pc, fc)..], fc[Common(pc, fc)..])
    decreases |pc|
  {
    if pc != [] && fc != [] && pc[0] == fc[0] {
      MeetSkips(pc[1..], fc[1..]);
    }
  }

  /** Where the parts differ, neighpath climbs out of the path and goes down to the file. */
  lemma MeetEnds(q: seq<Name>, g: seq<Name>)
    requires Normal(false, q) && Ups(q) == 0
    requires forall i | 0 <= i < |g| :: SLASH !in g[i] && g[i] != []
    requires q != [] && g != [] ==> q[0] != g[0]
    ensures Meet(q, g) == Path(Render(false, Resolve(false, [], Repeat(|q|) + g)))
  {
    hide Resolve;
    BackpathOf(q);
    if q != [] {
      JoinStart(q);
    }
    var bp := Render(false, Repeat(|q|));
    var text := if Join(g) == [] then HERE else Join(g);
    assert Meet(q, g) == Path(CanonPath(bp + [SLASH] + text));
    RepeatParts(|q|);
    ComponentsJoined(bp, text);
    TextParts(g);
    DotsIgnored(Repeat(|q|), g);
  }

  lemma TextParts(g: seq<Name>)
    requires forall i | 0 <= i < |g| :: SLASH !in g[i] && g[i] != []
    ensures Components(if Join(g) == [] then HERE else Join(g)) == Parts(g)
  {
    if g == [] {
      ComponentsOne(HERE);
    } else {
      JoinSplits(g);
      var none: Name := [];
      ComponentsOne(none);
    }
  }

  lemma DotsIgnored(a: seq<Name>, g: seq<Name>)
    ensures Resolve(false, [], Parts(a) + Parts(g)) == Resolve(false, [], a + g)
  {
    ResolveBoth(false, [], Parts(a), Parts(g));
    ResolveBoth(false, [], a, g);
    Dot([]);
    Dot(Resolve(false, [], a));
  }

  lemma Dot(st: seq<Name>)
    ensures Resolve(false, st, [HERE]) == Resolve(false, st, []) == st
  {
    Unfold(false, st, HERE, []);
    assert [HERE] + [] == [HERE];
  }

  /** The parts of a relative path in normal form have no slash, and none is empty. */
  lemma PartsNamed(f: seq<Name>)
    requires Normal(false, f)
    ensures forall i | 0 <= i < |Parts(f)| :: SLASH !in Parts(f)[i] && Parts(f)[i] != []
  {
  }

  /** What the loop of neighpath computes from two normal stacks. */
  lemma MeetIsWay(p: seq<Name>, f: seq<Name>)
    requires Normal(false, p) && Ups(p) == 0 && p != [] && Normal(false, f)
    ensures Meet(p, Parts(f)) == Path(Render(false, Way(p, f)))
  {
    hide Resolve, Meet, Join, Components;
    var fc := Parts(f);
    var k := Common(p, fc);
    PartsNamed(f);
    MeetSkips(p, fc);
    var q, g := p[k..], fc[k..];
    assert Normal(false, q) && Ups(q) == 0 by {
      UpsAre(q, 0);
    }
    assert q != [] && g != [] ==> q[0] != g[0];
    MeetEnds(q, g);
    if f == [] {
      assert k == 0 == Common(p, f);
      assert g == [HERE] && f[0..] == [];
      DotsIgnored(Repeat(|q|), f);
      NoParts(Repeat(|q|), f, g);
    }
  }

  lemma NoParts(a: seq<Name>, f: seq<Name>, g: seq<Name>)
    requires f == [] && g == [HERE]
    ensures Resolve(false, [], a + g) == Resolve(false, [], a + f)
  {
    ResolveBoth(false, [], a, g);
    ResolveBoth(false, [], a, f);
    Dot(Resolve(false, [], a));
  }

  /** When the file's text starts with the path and a slash, what follows leads on from the path. */
  lemma InsideShares(p: seq<Name>, f: seq<Name>, rest: seq<Byte>)
    requires Normal(false, p) && Ups(p) == 0 && Normal(false, f) && p != []
    requires Render(false, f) == Render(false, p) + [SLASH] + rest
    ensures Common(p, f) == |p| && Ups(f) == 0
  {
    RenderParts(p);
    RenderParts(f);
    ComponentsJoined(Render(false, p), rest);
    var r := Components(rest);
    assert f == [] ==> |Parts(f)| == 1;
    assert f == p + r;
    SharedFront(p, f);
    assert f[0] == p[0];
  }

  lemma {:induction false} SharedFront(p: seq<Name>, f: seq<Name>)
    requires |p| <= |f| && f[..|p|] == p
    ensures Common(p, f) == |p|
    decreases |p|
  {
    if p != [] {
      assert f[0] == f[..|p|][0] == p[0];
      assert f[1..][..|p| - 1] == f[..|p|][1..] == p[1..];
      SharedFront(p[1..], f[1..]);
    }
  }

  /** neighpath inverts joining: for relative paths in normal form, where the path does not start with `..`, it gives
      a path, and appending that to the first path leads to the file exactly when the way climbs at most two levels. */
  lemma NeighInverts(p: seq<Name>, f: seq<Name>)
    requires Normal(false, p) && Ups(p) == 0 && Normal(false, f)
    ensures var path, file := Render(false, p), Render(false, f);
      var n := NeighPath(path, file);
      && n.Path?
      && (CanonPath(path + [SLASH] + n.p) == file <==> |p| - Common(p, f) + Ups(f) <= 2)
  {
    hide Resolve, Meet, Components, CanonPath, Common, Ups, Normal, Render;
    var path, file := Render(false, p), Render(false, f);
    NormalRender(p);
    NormalRender(f);
    var n := NeighPath(path, file);
    if path == HERE {
      JoinedStack(p, file);
      FromHere(p, f);
    } else if |path| < |file| && file[..|path|] == path && file[|path|] == SLASH {
      var rest := file[|path| + 1..];
      assert file == path + [SLASH] + rest;
      NotHere(p);
      InsideShares(p, f, rest);
    } else {
      NotHere(p);
      MeetIsWay(p, f);
      WayInverts(p, f);
      WayJoined(p, f);
    }
  }

  /** A path joined on resolves from where the first one leads. */
  lemma JoinedOn(path: seq<Byte>, n: seq<Byte>)
    requires path != [] && !IsAbs(path)
    ensures !IsAbs(path + [SLASH] + n) && StackOf(path + [SLASH] + n) == Resolve(false, StackOf(path), Components(n))
  {
    hide Components, Resolve;
    ComponentsJoined(path, n);
    ResolveBoth(false, [], Components(path), Components(n));
    assert (path + [SLASH] + n)[0] == path[0];
  }

  /** The file's text starts with the path and a slash. */
  predicate Inside(path: seq<Byte>, file: seq<Byte>) {
    |path| < |file| && file[..|path|] == path && file[|path|] == SLASH
  }

  /** neighpath for any two relative texts: when the path does not lead above its start, appending the result to it
      leads to the same place as the file exactly when the file's text begins with the path or the way climbs at most
      two levels. */
  lemma NeighLeads(path: seq<Byte>, file: seq<Byte>)
    requires path != [] && file != [] && !IsAbs(path) && !IsAbs(file) && Ups(StackOf(path)) == 0
    ensures var n := NeighPath(path, file); var p, f := StackOf(path), StackOf(file);
      && n.Path?
      && (CanonPath(path + [SLASH] + n.p) == CanonPath(file) <==>
            Inside(path, file) || |p| - Common(p, f) + Ups(f) <= 2)
  {
    hide Resolve, Meet, Components, Common, Ups, Normal, Render, StackOf;
    var p, f := StackOf(path), StackOf(file);
    RelativeStack(path);
    RelativeStack(file);
    var n := NeighPath(path, file);
    if path == HERE {
      JoinedOn(path, file);
      HereStack(file);
      FewUps(f);
      NoneShared(p, f);
    } else if Inside(path, file) {
      assert path + [SLASH] + file[|path| + 1..] == file;
    } else {
      NormalRender(p);
      NormalRender(f);
      NotHere(p);
      if p == [] {
        FromNowhere(f);
        JoinedOn(path, n.p);
        JoinedOn(Render(false, p), n.p);
        FewUps(f);
        NoneShared(p, f);
        NormalRender(f);
        ResolveSelf(false, f);
        RenderParts(f);
      } else {
        MeetIsWay(p, f);
        JoinedOn(path, n.p);
        JoinedOn(Render(false, p), n.p);
        WayInverts(p, f);
        WayJoined(p, f);
      }
    }
  }

  /** neighpath gives up when the path leads to `..` that the file does not share. */
  lemma NeighAborts(path: seq<Byte>, file: seq<Byte>)
    requires path != [] && file != [] && !IsAbs(path) && !IsAbs(file) && path != HERE && !Inside(path, file)
    requires Common(StackOf(path), StackOf(file)) < Ups(StackOf(path))
    ensures NeighPath(path, file) == Abort
  {
    hide Resolve, Meet, Components, Common, Render, StackOf, Join;
    var p, f := StackOf(path), StackOf(file);
    RelativeStack(path);
    RelativeStack(file);
    NormalRender(p);
    NormalRender(f);
    var k := Common(p, f);
    SharedParts(p, f);
    PartsNamed(p);
    MeetSkips(p, Parts(f));
    var q, g := p[k..], Parts(f)[k..];
    UpsAre(q, Ups(p) - k);
    assert q[0] == p[k] == UP && Normal(false, q);
    assert g != [] ==> g[0] != q[0];
    UpAborts(q);
    MeetStops(q, g);
  }

  /** A file named from the root, and any file from here, is its own way; without a path or a file, and from the root to
      a file that is not, there is none. */
  lemma NeighSpecial(path: seq<Byte>, file: seq<Byte>)
    ensures IsAbs(file) || path == HERE ==> NeighPath(path, file) == Path(file)
    ensures !IsAbs(file) && path != HERE && (path == [] || file == [] || IsAbs(path)) ==> NeighPath(path, file) == Abort
  {
    hide Meet, CanonPath;
    if !IsAbs(file) && path != HERE && path != [] && file != [] && IsAbs(path) {
      assert |path| < |file| ==> file[..|path|][0] == file[0];
      RootStays(path);
      FromRoot(CanonPath(path), Components(CanonPath(file)));
    }
  }

  lemma RootStays(p: seq<Byte>)
    requires IsAbs(p)
    ensures IsAbs(CanonPath(p))
  {
  }

  lemma FromRoot(p: seq<Byte>, fc: seq<Name>)
    requires IsAbs(p)
    ensures Meet(Components(p), fc) == Abort
  {
    hide CanonPath;
    PartsTogether(p);
    assert NextSlash(p, 0) == 0;
    assert Components(p)[0] == [];
    RootStays(p);
  }

  lemma {:induction false} PartsTogether(p: seq<Byte>)
    ensures Join(Components(p)) == p
    decreases |p|
  {
    var k := NextSlash(p, 0);
    if k < |p| {
      FirstName(p);
      PartsTogether(p[k + 1..]);
      JoinCons(p[..k], Components(p[k + 1..]));
    }
  }

  lemma SharedParts(p: seq<Name>, f: seq<Name>)
    requires Normal(false, p) && Normal(false, f) && Common(p, f) < Ups(p)
    ensures Common(p, Parts(f)) == Common(p, f) && p != [] && Parts(p) == p
  {
    if f == [] {
      assert p[0] == UP;
    }
  }

  lemma UpAborts(q: seq<Name>)
    requires Normal(false, q) && q != [] && q[0] == UP
    ensures Backpath(Join(q)) == Abort && Join(q) != []
  {
    RenderStack(false, q);
    RenderParts(q);
  }

  lemma MeetStops(q: seq<Name>, g: seq<Name>)
    requires q != [] && (g != [] ==> g[0] != q[0]) && Backpath(Join(q)) == Abort && Join(q) != []
    ensures Meet(q, g) == Abort
  {
  }

  lemma RelativeStack(path: seq<Byte>)
    requires path != [] && !IsAbs(path)
    ensures Normal(false, StackOf(path)) && CanonPath(path) == Render(false, StackOf(path))
    ensures StackOf(Render(false, StackOf(path))) == StackOf(path)
  {
    CanonNormal(path);
    RenderStack(false, StackOf(path));
  }

  lemma HereStack(file: seq<Byte>)
    requires file != [] && !IsAbs(file)
    ensures StackOf(HERE) == [] && Resolve(false, StackOf(HERE), Components(file)) == StackOf(file)
  {
    RenderStack(false, []);
  }

  lemma FewUps(f: seq<Name>)
    requires Normal(false, f)
    ensures Ups(f) <= 2
  {
  }

  lemma NoneShared(p: seq<Name>, f: seq<Name>)
    requires p == []
    ensures |p| - Common(p, f) + Ups(f) == Ups(f)
  {
  }

  lemma FirstNamed(f: seq<Name>)
    requires Normal(false, f) && f != []
    ensures f[0] != HERE
  {
  }

  lemma HereLeads(fc: seq<Name>, f: seq<Name>)
    requires Normal(false, f) && (fc == Parts(f) || (fc == [] && f == []))
    ensures Backpath(HERE) == Path(HERE) && Join([]) == [] && Join([HERE]) == HERE
    ensures var t := if Join(fc) == [] then HERE else Join(fc); CanonPath(HERE + [SLASH] + t) == Render(false, f)
  {
    var none: seq<Name> := [];
    RenderStack(false, none);
    RenderStack(false, f);
    RenderParts(f);
    RenderParts(none);
    JoinedStack(none, Render(false, f));
    ResolveSelf(false, f);
  }

  /** From a path that leads nowhere the way to a file is its normal form. */
  lemma FromNowhere(f: seq<Name>)
    requires Normal(false, f)
    ensures Meet(Parts([]), Parts(f)) == Path(Render(false, f))
  {
    hide Components, Resolve, Normal, Join;
    HereLeads(Parts(f), f);
    if f == [] {
      HereLeads([], f);
    } else {
      FirstNamed(f);
    }
  }

  lemma NormalRender(st: seq<Name>)
    requires Normal(false, st)
    ensures Render(false, st) != [] && !IsAbs(Render(false, st)) && CanonPath(Render(false, st)) == Render(false, st)
    ensures Components(Render(false, st)) == Parts(st) && Ups(st) <= 2
  {
    RenderStack(false, st);
    RenderParts(st);
  }

  lemma NotHere(p: seq<Name>)
    requires Normal(false, p)
    ensures p == [] <==> Render(false, p) == HERE
    ensures p != [] ==> Parts(p) == p
  {
    if p != [] {
      RenderParts(p);
      ComponentsOne(HERE);
    }
  }

  lemma FromHere(p: seq<Name>, f: seq<Name>)
    requires Normal(false, p) && Normal(false, f) && Render(false, p) == HERE
    ensures Render(false, Resolve(false, p, Components(Render(false, f)))) == Render(false, f)
    ensures |p| - Common(p, f) + Ups(f) <= 2
  {
    NotHere(p);
    RenderParts(f);
    ResolveSelf(false, f);
  }

  lemma WayJoined(p: seq<Name>, f: seq<Name>)
    requires Normal(false, p) && Normal(false, f) && Normal(false, Way(p, f))
    ensures CanonPath(Render(false, p) + [SLASH] + Render(false, Way(p, f))) == Render(false, f) <==>
            Resolve(false, p, Way(p, f)) == f
  {
    hide Resolve, Way, Components, Render, CanonPath;
    var w := Way(p, f);
    JoinedStack(p, Render(false, w));
    RenderParts(w);
    NormalKept(p, w);
    SameRender(Resolve(false, p, w), f);
  }

  lemma NormalKept(p: seq<Name>, w: seq<Name>)
    requires Normal(false, p) && Normal(false, w)
    ensures Normal(false, Resolve(false, p, w))
  {
    ResolveNormal(false, p, w);
  }

  /** Three levels up, written out, come back from canon as one. */
  lemma ThirdLevelLost()
    ensures CanonPath(Join(Repeat(3))) == UP && |Location(Join(Repeat(3)))| == 3
  {
    var p := Join(Repeat(3));
    JoinSplits(Repeat(3));
    JoinStart(Repeat(3));
    ResolveRepeat(3);
    assert Climbed(3) == 1 && Repeat(1) == [UP];
    assert Location(p) == Repeat(3) by {
      var r := Repeat(3);
      var s, t := r[1..], r[2..];
      assert r == [UP, UP, UP] && s[1..] == t && t[1..] == r[3..];
      assert FollowAll(false, [], r) == FollowAll(false, [UP], s);
      assert FollowAll(false, [UP], s) == FollowAll(false, [UP, UP], t);
      assert FollowAll(false, [UP, UP], t) == FollowAll(false, [UP, UP, UP], r[3..]);
    }
  }
}
