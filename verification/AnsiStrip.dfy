/** Removing terminal control sequences from a stream. */
module AnsiStrip {
  import opened Bytes

  const ESC: Byte := 27
  const BRACKET: Byte := 91

  /** The byte that ends a control sequence (section 5.4 of ECMA-48). */
  predicate Final(c: Byte) {
    0x40 <= c <= 0x7E
  }

  /** A parameter or intermediate byte of a control sequence. */
  predicate Inner(c: Byte) {
    0x20 <= c <= 0x3F
  }

  predicate Introduces(s: seq<Byte>, i: nat) {
    i + 1 < |s| && s[i] == ESC && s[i + 1] == BRACKET
  }

  /** What is kept of the stream from position `i` on; `esc` inside a control sequence. */
  function Strip(s: seq<Byte>, i: nat, esc: bool): seq<Byte>
    decreases |s| - i
  {
    if i >= |s| then []
    else if Introduces(s, i) then Strip(s, i + 2, true)
    else if esc then Strip(s, i + 1, !Final(s[i]))
    else [s[i]] + Strip(s, i + 1, false)
  }

  function Stripped(s: seq<Byte>): seq<Byte> {
    Strip(s, 0, false)
  }

  /** Somewhere an escape character stands right before a bracket. */
  ghost predicate HasIntroducer(s: seq<Byte>) {
    exists k :: 0 <= k < |s| && Introduces(s, k)
  }

  /** Where no control sequence is introduced nothing is removed. */
  lemma {:induction false} NothingToStrip(s: seq<Byte>, i: nat)
    requires i <= |s| && forall k | i <= k < |s| :: !Introduces(s, k)
    ensures Strip(s, i, false) == s[i..]
    decreases |s| - i
  {
    if i < |s| {
      NothingToStrip(s, i + 1);
    }
  }

  lemma {:induction false} NeverGrows(s: seq<Byte>, i: nat, esc: bool)
    requires i <= |s|
    ensures |Strip(s, i, esc)| <= |s| - i
    decreases |s| - i
  {
    if i < |s| {
      NeverGrows(s, i + 1, !Final(s[i]));
      NeverGrows(s, i + 1, false);
      if i + 1 < |s| {
        NeverGrows(s, i + 2, true);
      }
    }
  }

  lemma {:induction false} Shrinks(s: seq<Byte>, i: nat, k: nat)
    requires i <= k < |s| && Introduces(s, k)
    ensures |Strip(s, i, false)| < |s| - i
    decreases |s| - i
  {
    if Introduces(s, i) {
      NeverGrows(s, i + 2, true);
    } else {
      Shrinks(s, i + 1, k);
    }
  }

  /** A stream is left as it is exactly when no control sequence is introduced in it. */
  lemma Unchanged(s: seq<Byte>)
    ensures Stripped(s) == s <==> !HasIntroducer(s)
  {
    if HasIntroducer(s) {
      var k :| 0 <= k < |s| && Introduces(s, k);
      Shrinks(s, 0, k);
    } else {
      NothingToStrip(s, 0);
    }
  }

  /** Only what follows matters. */
  lemma {:induction false} StripShift(a: seq<Byte>, i: nat, b: seq<Byte>, j: nat, esc: bool)
    requires i <= |a| && j <= |b| && a[i..] == b[j..]
    ensures Strip(a, i, esc) == Strip(b, j, esc)
    decreases |a| - i
  {
    assert |a| - i == |b| - j;
    if i < |a| {
      assert a[i] == a[i..][0] == b[j];
      assert a[i + 1..] == a[i..][1..] == b[j + 1..];
      StripShift(a, i + 1, b, j + 1, !Final(a[i]));
      StripShift(a, i + 1, b, j + 1, false);
      if i + 1 < |a| {
        assert a[i + 1] == a[i..][1] == b[j + 1];
        assert a[i + 2..] == a[i..][2..] == b[j + 2..];
        StripShift(a, i + 2, b, j + 2, true);
      }
    }
  }

  /** Inside a control sequence everything up to the final byte goes. */
  lemma {:induction false} InnerGoes(s: seq<Byte>, i: nat, inner: seq<Byte>, final: Byte, rest: seq<Byte>)
    requires i <= |s| && s[i..] == inner + [final] + rest
    requires (forall k | 0 <= k < |inner| :: Inner(inner[k])) && Final(final)
    ensures Strip(s, i, true) == Stripped(rest)
    decreases |inner|
  {
    assert s[i] == s[i..][0];
    if inner == [] {
      assert s[i + 1..] == s[i..][1..] == rest[0..];
      StripShift(s, i + 1, rest, 0, false);
    } else {
      assert s[i + 1..] == s[i..][1..] == inner[1..] + [final] + rest;
      InnerGoes(s, i + 1, inner[1..], final, rest);
    }
  }

  /** A control sequence ends with the first byte from 64 to 126 and no other, control bytes and bytes above 126
      included; when that byte is the bracket of an introducer, another sequence has begun. */
  lemma {:induction false} SequenceEnds(s: seq<Byte>, i: nat, j: nat)
    requires i <= j < |s| && 64 <= s[j] <= 126 && forall k | i <= k < j :: s[k] < 64 || s[k] > 126
    ensures Strip(s, i, true) == Strip(s, j + 1, j > i && s[j - 1] == 27 && s[j] == 91)
    decreases j - i
  {
    if i < j && !Introduces(s, i) {
      SequenceEnds(s, i + 1, j);
    }
  }

  /** A control sequence without a last byte takes the rest of the stream with it. */
  lemma {:induction false} NeverEnds(s: seq<Byte>, i: nat)
    requires forall k | i <= k < |s| :: s[k] < 64 || s[k] > 126
    ensures Strip(s, i, true) == []
    decreases |s| - i
  {
    if i < |s| {
      NeverEnds(s, i + 1);
    }
  }

  /** A control sequence: ESC, `[`, parameter and intermediate bytes, and a final byte. */
  ghost predicate ControlSequence(c: seq<Byte>) {
    && |c| >= 3 && c[0] == ESC && c[1] == BRACKET && Final(c[|c| - 1])
    && forall k | 2 <= k < |c| - 1 :: Inner(c[k])
  }

  /** Text without an introducer stays and a control sequence after it goes, and the rest is treated as if it stood
      alone. */
  lemma {:induction false} SequenceGoes(text: seq<Byte>, c: seq<Byte>, rest: seq<Byte>)
    requires !HasIntroducer(text) && ControlSequence(c)
    ensures Stripped(text + c + rest) == text + Stripped(rest)
    decreases |text|
  {
    var s := text + c + rest;
    if text == [] {
      assert s[2..] == c[2..|c| - 1] + [c[|c| - 1]] + rest;
      InnerGoes(s, 2, c[2..|c| - 1], c[|c| - 1], rest);
    } else {
      var tail := text[1..];
      assert s[1..] == (tail + c + rest)[0..];
      StripShift(s, 1, tail + c + rest, 0, false);
      assert forall k | 0 <= k < |tail| :: Introduces(tail, k) ==> Introduces(text, k + 1);
      SequenceGoes(tail, c, rest);
      assert s[0] == text[0] && s[1] == if |text| > 1 then text[1] else c[0];
      assert !Introduces(text, 0) && !Introduces(s, 0);
    }
  }

  /** The positions from `i` on whose bytes are kept. */
  function KeptFrom(s: seq<Byte>, i: nat, esc: bool): seq<nat>
    decreases |s| - i
  {
    if i >= |s| then []
    else if Introduces(s, i) then KeptFrom(s, i + 2, true)
    else if esc then KeptFrom(s, i + 1, !Final(s[i]))
    else [i] + KeptFrom(s, i + 1, false)
  }

  ghost predicate IsKept(s: seq<Byte>, k: nat) {
    k in KeptFrom(s, 0, false)
  }

  /** Stripping gives the kept bytes in order. */
  lemma {:induction false} KeptBytes(s: seq<Byte>, i: nat, esc: bool)
    ensures var kept := KeptFrom(s, i, esc);
      && |kept| == |Strip(s, i, esc)|
      && (forall j | 0 <= j < |kept| :: i <= kept[j] < |s| && s[kept[j]] == Strip(s, i, esc)[j])
      && (forall j, k | 0 <= j < k < |kept| :: kept[j] < kept[k])
    decreases |s| - i
  {
    if i < |s| {
      if Introduces(s, i) {
        KeptBytes(s, i + 2, true);
      } else {
        KeptBytes(s, i + 1, esc && !Final(s[i]));
      }
    }
  }

  /** Byte `k` follows byte `j` once the stream is stripped. */
  ghost predicate NextKept(s: seq<Byte>, j: nat, k: nat) {
    && j < k < |s| && IsKept(s, j) && IsKept(s, k)
    && forall m | j < m < k :: !IsKept(s, m)
  }

  /** A kept escape character is followed by a kept bracket. */
  ghost predicate Rejoins(s: seq<Byte>) {
    exists j: nat, k: nat :: j < |s| && k < |s| && NextKept(s, j, k) && s[j] == ESC && s[k] == BRACKET
  }

  lemma NextInOrder(s: seq<Byte>, j: nat)
    requires j + 1 < |KeptFrom(s, 0, false)|
    ensures var kept := KeptFrom(s, 0, false); NextKept(s, kept[j], kept[j + 1])
  {
    KeptBytes(s, 0, false);
  }

  lemma InOrderNext(s: seq<Byte>, a: nat, b: nat) returns (j: nat)
    requires NextKept(s, a, b)
    ensures var kept := KeptFrom(s, 0, false); j + 1 < |kept| && kept[j] == a && kept[j + 1] == b
  {
    KeptBytes(s, 0, false);
    var kept := KeptFrom(s, 0, false);
    j :| 0 <= j < |kept| && kept[j] == a;
    var k :| 0 <= k < |kept| && kept[k] == b;
    if j + 1 < k {
      assert IsKept(s, kept[j + 1]);
    }
  }

  /** Stripping twice is stripping once, unless what is removed parted an escape character from a bracket. */
  lemma StripTwice(s: seq<Byte>)
    ensures Stripped(Stripped(s)) == Stripped(s) <==> !Rejoins(s)
  {
    hide Strip, KeptFrom, NextKept;
    var t, kept := Stripped(s), KeptFrom(s, 0, false);
    Unchanged(t);
    KeptBytes(s, 0, false);
    if HasIntroducer(t) {
      var j :| 0 <= j < |t| && Introduces(t, j);
      NextInOrder(s, j);
    }
    if Rejoins(s) {
      var a: nat, b: nat :| a < |s| && b < |s| && NextKept(s, a, b) && s[a] == ESC && s[b] == BRACKET;
      var j := InOrderNext(s, a, b);
      assert Introduces(t, j);
    }
  }

  const REJOINING: seq<Byte> := [ESC, ESC, BRACKET, 109, BRACKET, 109]

  /** The shortest such streams look like this one. */
  lemma NotIdempotent()
    ensures Rejoins(REJOINING) && Stripped(REJOINING) == [ESC, BRACKET, 109] && Stripped(Stripped(REJOINING)) == []
  {
    var s := REJOINING;
    assert Strip(s, 3, true) == Strip(s, 4, false) == [BRACKET] + Strip(s, 5, false);
    assert Strip(s, 1, false) == Strip(s, 3, true);
    assert Strip(s, 5, false) == [109] + Strip(s, 6, false) == [109];
    var t: seq<Byte> := [ESC, BRACKET, 109];
    assert Stripped(s) == t;
    assert Strip(t, 2, true) == Strip(t, 3, false);
    assert Stripped(t) == [];
    StripTwice(s);
  }
}
