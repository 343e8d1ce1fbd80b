/** Lists of different members, and lists without some members. */
module Sequences {
  predicate Distinct<T(==)>(s: seq<T>) {
    forall i, j | 0 <= i < j < |s| :: s[i] != s[j]
  }

  /** The members of `s` that are not in `gone`, in order. */
  function Without<T(==)>(s: seq<T>, gone: set<T>): seq<T> {
    if s == [] then []
    else if s[0] in gone then Without(s[1..], gone)
    else [s[0]] + Without(s[1..], gone)
  }

  lemma {:induction false} WithoutTwice<T>(s: seq<T>, a: set<T>, b: set<T>)
    requires a <= b
    ensures Without(Without(s, a), b) == Without(s, b)
  {
    if s != [] {
      WithoutTwice(s[1..], a, b);
      if s[0] !in a {
        var w := Without(s, a);
        assert w[0] == s[0] && w[1..] == Without(s[1..], a);
      }
    }
  }

  lemma {:induction false} WithoutNone<T>(s: seq<T>, gone: set<T>)
    requires forall r | r in s :: r !in gone
    ensures Without(s, gone) == s
  {
    if s != [] {
      var h := s[0];
      assert h in s && h !in gone;
      assert forall r | r in s[1..] :: r in s;
      WithoutNone(s[1..], gone);
      assert Without(s, gone) == [s[0]] + s[1..];
    }
  }

  lemma {:induction false} WithoutMembers<T>(s: seq<T>, gone: set<T>)
    ensures forall x :: x in Without(s, gone) <==> x in s && x !in gone
    ensures Distinct(s) ==> Distinct(Without(s, gone))
  {
    if s != [] {
      WithoutMembers(s[1..], gone);
      assert forall x :: x in s <==> x == s[0] || x in s[1..];
      if Distinct(s) {
        assert Distinct(s[1..]);
        assert s[0] !in s[1..];
      }
    }
  }

  /** Removing one member from a list that holds none of `gone`. */
  lemma WithoutOne<T>(s: seq<T>, gone: set<T>, r: T)
    requires forall x | x in s :: x !in gone
    ensures Without(s, {r}) == Without(s, gone + {r})
  {
    WithoutNone(s, gone);
    WithoutSplit(s, gone, r);
  }

  lemma {:induction false} WithoutSplit<T>(s: seq<T>, gone: set<T>, r: T)
    ensures Without(Without(s, gone), {r}) == Without(s, gone + {r})
  {
    if s != [] {
      WithoutSplit(s[1..], gone, r);
      if s[0] !in gone {
        var w := Without(s, gone);
        assert w[0] == s[0] && w[1..] == Without(s[1..], gone);
      }
    }
  }
}
