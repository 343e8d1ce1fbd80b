/** Output collected in pages, and its dump. */
module SyncBuf {
  import opened Bytes
  import opened AnsiStrip

  const PAGE := 4078

  class Page {
    const meat: array<Byte>
    var meatsz: nat

    constructor ()
      ensures fresh(meat) && meat.Length == PAGE && meatsz == 0
    {
      meat, meatsz := new Byte[PAGE], 0;
    }
  }

  /** The pages' texts one after the other. */
  function Flat(texts: seq<seq<Byte>>): seq<Byte> {
    if texts == [] then [] else texts[0] + Flat(texts[1..])
  }

  lemma {:induction false} FlatBoth(a: seq<seq<Byte>>, b: seq<seq<Byte>>)
    ensures Flat(a + b) == Flat(a) + Flat(b)
    decreases |a|
  {
    if a == [] {
      assert a + b == b;
    } else {
      assert (a + b)[1..] == a[1..] + b;
      FlatBoth(a[1..], b);
    }
  }

  lemma FlatOne(text: seq<Byte>)
    ensures Flat([text]) == text
  {
    var one := [text];
    assert one[1..] == [] && text + [] == text;
  }

  lemma FlatFront(texts: seq<seq<Byte>>, i: nat)
    requires i < |texts|
    ensures Flat(texts[..i + 1]) == Flat(texts[..i]) + texts[i]
  {
    hide Flat;
    assert texts[..i + 1] == texts[..i] + [texts[i]];
    FlatBoth(texts[..i], [texts[i]]);
    FlatOne(texts[i]);
  }

  lemma FlatAt(texts: seq<seq<Byte>>, i: nat)
    requires i < |texts|
    ensures Flat(texts) == Flat(texts[..i]) + texts[i] + Flat(texts[i + 1..])
    ensures Flat(texts[..i + 1]) == Flat(texts[..i]) + texts[i]
  {
    hide Flat;
    FlatFront(texts, i);
    assert texts == texts[..i + 1] + texts[i + 1..];
    FlatBoth(texts[..i + 1], texts[i + 1..]);
  }

  /** memcpy. */
  method Copy(dst: array<Byte>, at: nat, src: seq<Byte>)
    requires at + |src| <= dst.Length
    modifies dst
    ensures dst[..at] == old(dst[..at]) && dst[at..at + |src|] == src
  {
    for k := 0 to |src|
      invariant dst[..at] == old(dst[..at]) && dst[at..at + k] == src[..k]
    {
      dst[at + k] := src[k];
    }
  }

  /** What has been kept, with what stripping keeps from `g` on, is `all`. */
  ghost predicate Kept(front: seq<Byte>, s: seq<Byte>, g: nat, esc: bool, all: seq<Byte>) {
    front + Strip(s, g, esc) == all
  }

  /** One round of the stripping loop: an introducer goes, a byte inside a sequence goes, any other byte is kept. */
  lemma KeptStep(front: seq<Byte>, s: seq<Byte>, g: nat, esc: bool, all: seq<Byte>)
    requires g < |s| && Kept(front, s, g, esc, all)
    ensures if Introduces(s, g) then Kept(front, s, g + 2, true, all)
            else if esc then Kept(front, s, g + 1, !Final(s[g]), all)
            else Kept(front + [s[g]], s, g + 1, false, all)
  {
    if !Introduces(s, g) && !esc {
      Regroup(front, [s[g]], Strip(s, g + 1, false));
    }
  }

  /** syncbuf_dump's stripping loop over the `n` bytes of a page: `s` is the whole stream and holds them from `off`
      on. */
  method StripBytes(meat: array<Byte>, n: nat, bracketNext: bool, esc: bool, skip: bool, ghost s: seq<Byte>,
        ghost off: nat)
      returns (j: nat, esc': bool, skip': bool)
    requires 0 < n <= meat.Length && off + n <= |s| && meat[..n] == s[off..off + n]
    requires bracketNext <==> off + n < |s| && s[off + n] == BRACKET
    modifies meat
    ensures j <= n && (skip' ==> bracketNext)
    ensures meat[..j] + Strip(s, off + n + (if skip' then 1 else 0), esc') ==
      Strip(s, off + (if skip then 1 else 0), esc)
  {
    hide Strip, Introduces;
    ghost var t := meat[..n];
    ghost var all := Strip(s, off + (if skip then 1 else 0), esc);
    esc', skip', j := esc, false, 0;
    var i := if skip then 1 else 0;
    ghost var front: seq<Byte> := [];
    ghost var g := off + i;
    assert Kept(front, s, g, esc, all);
    hide Kept;
    while i < n
      invariant j <= i <= n && (skip' ==> i == n && bracketNext)
      invariant forall k | i <= k < n :: meat[k] == t[k]
      invariant g == off + i + (if skip' then 1 else 0) && meat[..j] == front && Kept(front, s, g, esc', all)
      decreases n - i
    {
      InPage(t, s, off, i, bracketNext);
      KeptStep(front, s, g, esc', all);
      if meat[i] == ESC {
        if i + 1 == n {
          if bracketNext {
            skip', esc', i, g := true, true, i + 1, g + 2;
            continue;
          }
        } else if meat[i + 1] == BRACKET {
          esc', i, g := true, i + 2, g + 2;
          continue;
        }
      }
      if esc' {
        esc', i, g := !(0x40 <= meat[i] <= 0x7E), i + 1, g + 1;
        continue;
      }
      KeepByte(meat, i, j);
      front, g := front + [t[i]], g + 1;
      i, j := i + 1, j + 1;
    }
    KeptEnds(front, s, g, esc', all);
  }

  method StripPage(page: Page, bracketNext: bool, esc: bool, skip: bool, ghost s: seq<Byte>, ghost off: nat)
      returns (esc': bool, skip': bool)
    requires 0 < page.meatsz <= page.meat.Length
    requires off + page.meatsz <= |s| && page.meat[..page.meatsz] == s[off..off + page.meatsz]
    requires bracketNext <==> off + page.meatsz < |s| && s[off + page.meatsz] == BRACKET
    modifies page, page.meat
    ensures page.meatsz <= old(page.meatsz)
    ensures skip' ==> off + old(page.meatsz) < |s|
    ensures page.meat[..page.meatsz] + Strip(s, off + old(page.meatsz) + (if skip' then 1 else 0), esc') ==
            Strip(s, off + (if skip then 1 else 0), esc)
  {
    hide Strip;
    var j;
    j, esc', skip' := StripBytes(page.meat, page.meatsz, bracketNext, esc, skip, s, off);
    page.meatsz := j;
  }

  /** Move the byte at `i` down to `j`. */
  method KeepByte(meat: array<Byte>, i: nat, j: nat)
    requires j <= i < meat.Length
    modifies meat
    ensures meat[..j + 1] == old(meat[..j]) + [old(meat[i])]
    ensures forall k | i < k < meat.Length :: meat[k] == old(meat[k])
  {
    meat[j] := meat[i];
  }

  /** Position `i` of a page in the stream; the first byte of the next page decides about an escape character in the
      last place. */
  lemma InPage(t: seq<Byte>, s: seq<Byte>, off: nat, i: nat, bracketNext: bool)
    requires i < |t| && off + |t| <= |s| && t == s[off..off + |t|]
    requires bracketNext <==> off + |t| < |s| && s[off + |t|] == BRACKET
    ensures off + i < |s| && s[off + i] == t[i]
    ensures Introduces(s, off + i) <==> t[i] == ESC && (if i + 1 == |t| then bracketNext else t[i + 1] == BRACKET)
  {
    assert s[off + i] == t[i];
    if i + 1 < |t| {
      assert s[off + i + 1] == t[i + 1];
    }
  }

  lemma KeptEnds(front: seq<Byte>, s: seq<Byte>, g: nat, esc: bool, all: seq<Byte>)
    requires Kept(front, s, g, esc, all)
    ensures front + Strip(s, g, esc) == all
  {
  }

  /** No page but the last has room left; the last may be empty. */
  ghost predicate Filled(texts: seq<seq<Byte>>) {
    forall i | 0 <= i < |texts| :: |texts[i]| <= PAGE && (i + 1 < |texts| ==> |texts[i]| == PAGE)
  }

  /** No page is empty, and none but the last has room left. */
  ghost predicate Packed(texts: seq<seq<Byte>>) {
    Filled(texts) && (texts != [] ==> texts[|texts| - 1] != [])
  }

  class Buffer {
    var list: seq<Page>
    var hasEscapes: bool
    var curCached: nat
    const maxCached: nat
    ghost var texts: seq<seq<Byte>>
    ghost var Repr: set<object>

    /** What has been appended since the last dump. */
    ghost function Contents(): seq<Byte>
      reads this
    {
      Flat(texts)
    }

    /** The pages are different objects with different memory, and hold the texts. */
    ghost predicate Paged()
      reads this, Repr
    {
      && this !in Repr && |list| == |texts|
      && (forall i | 0 <= i < |list| :: list[i] in Repr && list[i].meat in Repr)
      && (forall i | 0 <= i < |list| ::
        list[i].meatsz <= list[i].meat.Length == PAGE && list[i].meat[..list[i].meatsz] == texts[i])
      && (forall i, j | 0 <= i < j < |list| :: list[i] != list[j] && list[i].meat != list[j].meat)
    }

    ghost predicate Valid()
      reads this, Repr
    {
      Paged() && Packed(texts) && curCached <= maxCached && (!hasEscapes ==> ESC !in Contents())
    }

    constructor (maxCached: nat)
      ensures Valid() && Contents() == [] && Repr == {} && this.maxCached == maxCached && !hasEscapes
    {
      list, hasEscapes, curCached, texts, Repr := [], false, 0, [], {};
      this.maxCached := maxCached;
    }

    /** getbuf: a page from the cache or a new one; either way its bytes are arbitrary. */
    method GetBuf() returns (page: Page)
      modifies this`curCached
      ensures curCached == if old(curCached) > 0 then old(curCached) - 1 else 0
      ensures fresh(page) && fresh(page.meat) && page.meatsz == 0 && page.meat.Length == PAGE
    {
      if curCached > 0 {
        curCached := curCached - 1;
      }
      page := new Page();
    }

    /** putbuf: into the cache when that has room, or given back. */
    method PutBuf()
      requires curCached <= maxCached
      modifies this`curCached
      ensures curCached == if old(curCached) < maxCached then old(curCached) + 1 else maxCached
    {
      if curCached < maxCached {
        curCached := curCached + 1;
      }
    }

    /** A new page at the end of the list. */
    method AddPage()
      requires Paged() && curCached <= maxCached
      modifies this`list, this`texts, this`curCached, this`Repr
      ensures Paged() && texts == old(texts) + [[]] && curCached <= maxCached && fresh(Repr - old(Repr))
    {
      var page := GetBuf();
      list, texts := list + [page], texts + [[]];
      Repr := Repr + {page, page.meat};
      assert page.meat[..page.meatsz] == [];
    }

    /** Copy as much of `data` as fits to the last page. */
    method Fill(data: seq<Byte>) returns (tocopy: nat)
      requires Paged() && list != [] && data != [] && |texts[|texts| - 1]| < PAGE
      modifies this`texts, Repr
      ensures Paged() && 0 < tocopy <= |data| && |texts| == |old(texts)|
      ensures tocopy == if |data| < PAGE - |old(texts)[|texts| - 1]| then |data| else PAGE - |old(texts)[|texts| - 1]|
      ensures texts == old(texts)[|texts| - 1 := old(texts)[|texts| - 1] + data[..tocopy]]
    {
      var page := list[|list| - 1];
      assert page.meatsz == |texts[|texts| - 1]|;
      tocopy := PAGE - page.meatsz;
      if |data| < tocopy {
        tocopy := |data|;
      }
      ghost var was := page.meat[..page.meatsz];
      Copy(page.meat, page.meatsz, data[..tocopy]);
      page.meatsz := page.meatsz + tocopy;
      assert page.meat[..page.meatsz] == was + data[..tocopy];
      texts := texts[|texts| - 1 := was + data[..tocopy]];
    }

    /** One round of the copying loop. */
    method CopySome(data: seq<Byte>) returns (tocopy: nat)
      requires Paged() && Filled(texts) && list != [] && data != [] && curCached <= maxCached
      modifies this`list, this`texts, this`curCached, this`Repr, Repr
      ensures Paged() && Packed(texts) && curCached <= maxCached && texts != [] && fresh(Repr - old(Repr))
      ensures 0 < tocopy <= |data| && Flat(texts) == old(Flat(texts)) + data[..tocopy]
    {
      hide Flat;
      assert list[|list| - 1].meatsz == |texts[|texts| - 1]|;
      if list[|list| - 1].meatsz == PAGE {
        FlatEmpty(texts);
        AddPage();
      }
      ghost var before := texts;
      tocopy := Fill(data);
      FlatLast(before, data[..tocopy]);
    }

    /** Remember that an escape character has come by. */
    method NoteEscapes(data: seq<Byte>)
      requires Paged()
      modifies this`hasEscapes
      ensures Paged() && hasEscapes == (old(hasEscapes) || ESC in data)
    {
      if !hasEscapes && ESC in data {
        hasEscapes := true;
      }
    }

    /** syncbuf_append: the bytes go after what is there, whatever page they start and end on. */
    method Append(data: seq<Byte>)
      requires Valid()
      modifies this, Repr
      ensures Valid() && Contents() == old(Contents()) + data && fresh(Repr - old(Repr))
      ensures hasEscapes == (old(hasEscapes) || ESC in data)
    {
      hide Flat, Paged;
      if data == [] {
        assert Contents() + data == Contents();
        return;
      }
      NoteEscapes(data);
      Lengths();
      if list == [] {
        FlatEmpty(texts);
        AddPage();
        Lengths();
      }
      var sz := 0;
      while sz < |data|
        invariant 0 <= sz <= |data| && Paged() && texts != [] && curCached <= maxCached && fresh(Repr - old(Repr))
        invariant if sz > 0 then Packed(texts) else Filled(texts)
        invariant Flat(texts) == old(Flat(texts)) + data[..sz]
        invariant hasEscapes == (old(hasEscapes) || ESC in data)
      {
        Lengths();
        var tocopy := CopySome(data[sz..]);
        assert data[..sz + tocopy] == data[..sz] + data[sz..][..tocopy];
        sz := sz + tocopy;
      }
      assert data[..sz] == data;
    }

    lemma Lengths()
      requires Paged()
      ensures |list| == |texts| && this !in Repr
    {
    }

    /** The stripping half of syncbuf_dump: the pages keep, in place, what one pass over the whole stream keeps. */
    method StripAll()
      requires Paged() && Packed(texts)
      modifies this`texts, Repr
      ensures Paged() && Flat(texts) == Stripped(old(Flat(texts)))
    {
      hide Flat, Strip, Stripped, Paged, Packed, Progress;
      ghost var s := Flat(texts);
      StartsStripping(s);
      AllNonEmpty(texts);
      ghost var was := texts;
      Lengths();
      assert Flat(was[..0]) == [] by {
        FlatNone();
      }
      var esc, skip := false, false;
      ghost var off := 0;
      var k := 0;
      while k < |list|
        invariant 0 <= k <= |list| && Paged() && |texts| == |was| == |list|
        invariant texts[k..] == was[k..]
        invariant off == |Flat(was[..k])|
        invariant Progress(texts[..k], s, off, esc, skip)
      {
        esc, skip := StripNext(k, esc, skip, was, off);
        PageInStream(was, k, off);
        off := off + |was[k]|;
        k := k + 1;
      }
      assert was[..k] == was && texts[..k] == texts;
      StripEnds(texts, s, esc, skip);
    }

    /** One page of the stripping loop. */
    method StripNext(k: nat, esc: bool, skip: bool, ghost was: seq<seq<Byte>>, ghost off: nat)
      returns (esc': bool, skip': bool)
      requires Paged() && Packed(was) && |was| == |texts| && k < |list| && texts[k..] == was[k..]
      requires off == |Flat(was[..k])|
      requires Progress(texts[..k], Flat(was), off, esc, skip)
      modifies this`texts, Repr
      ensures Paged() && |texts| == |was| && texts[k + 1..] == was[k + 1..]
      ensures skip' ==> off + |was[k]| < |Flat(was)|
      ensures Progress(texts[..k + 1], Flat(was), off + |was[k]|, esc', skip')
    {
      hide Flat, Strip, Stripped;
      ghost var s := Flat(was);
      assert texts[k] == texts[k..][0] == was[k];
      assert k + 1 < |was| ==> texts[k + 1] == texts[k..][1] == was[k + 1];
      var next := k + 1 < |list| && list[k + 1].meatsz > 0 && list[k + 1].meat[0] == BRACKET;
      PageInStream(was, k, off);
      assert k + 1 < |list| ==> list[k + 1].meatsz == |texts[k + 1]| && list[k + 1].meat[0] == texts[k + 1][0];
      ghost var before := texts;
      esc', skip' := StripOne(k, next, esc, skip, s, off);
      assert texts[..k] == before[..k];
      assert texts[k + 1..] == before[k + 1..] == before[k..][1..] == was[k + 1..];
      ProgressOne(texts, k, s, off, off + |was[k]|, esc, skip, esc', skip');
    }

    /** syncbuf_dump: writes everything, stripped unless a terminal or a parent that strips is listening, and leaves
        the buffer empty. */
    method Dump(out: seq<Byte>, fd: int, isatty: bool, wasRecursive: bool, wasRecursiveOutsync: bool,
          outputIsPipe: bool)
        returns (out': seq<Byte>)
      requires Valid()
      modifies this, Repr
      ensures Valid() && Contents() == []
      ensures out' == out + if !isatty && !(wasRecursive && wasRecursiveOutsync && fd == 1 && outputIsPipe)
                            then Stripped(old(Contents())) else old(Contents())
    {
      hide Flat, Stripped, Packed, Paged;
      ghost var s := Flat(texts);
      Lengths();
      if !hasEscapes {
        PlainStripped(s);
      }
      if hasEscapes && !isatty && (!wasRecursive || !wasRecursiveOutsync || fd != 1 || !outputIsPipe) {
        StripAll();
      }
      out' := WriteAway(out);
    }

    /** Write the pages out one by one and give them back. */
    method WriteAway(out: seq<Byte>) returns (out': seq<Byte>)
      requires Paged() && curCached <= maxCached
      modifies this`list, this`texts, this`curCached
      ensures out' == out + old(Flat(texts)) && Valid() && Contents() == []
      ensures curCached == old(if curCached + |list| < maxCached then curCached + |list| else maxCached)
    {
      hide Flat;
      out' := out;
      FlatNone();
      assert out + Flat(texts) == out' + Flat(texts);
      while list != []
        invariant Paged() && curCached <= maxCached && out' + Flat(texts) == out + old(Flat(texts))
        invariant (if curCached + |list| < maxCached then curCached + |list| else maxCached) ==
          old(if curCached + |list| < maxCached then curCached + |list| else maxCached)
        decreases |list|
      {
        FlatFirst(texts);
        assert out' + (texts[0] + Flat(texts[1..])) == out' + texts[0] + Flat(texts[1..]);
        out' := WriteAll(out', list[0].meat[..list[0].meatsz]);
        PopPage();
        PutBuf();
      }
      assert texts == [];
      assert out' + [] == out';
    }

    method PopPage()
      requires Paged() && list != []
      modifies this`list, this`texts
      ensures Paged() && list == old(list)[1..] && texts == old(texts)[1..]
    {
      list, texts := list[1..], texts[1..];
    }

    method StripOne(k: nat, next: bool, esc: bool, skip: bool, ghost s: seq<Byte>, ghost off: nat)
      returns (esc': bool, skip': bool)
      requires Paged() && k < |list| && texts[k] != [] && off + |texts[k]| <= |s|
      requires texts[k] == s[off..off + |texts[k]|]
      requires next <==> off + |texts[k]| < |s| && s[off + |texts[k]|] == BRACKET
      modifies this`texts, list[k], list[k].meat
      ensures Paged() && |texts| == |old(texts)| && forall i | 0 <= i < |texts| && i != k :: texts[i] == old(texts)[i]
      ensures skip' ==> off + |old(texts)[k]| < |s|
      ensures texts[k] + Strip(s, off + |old(texts)[k]| + (if skip' then 1 else 0), esc') ==
        Strip(s, off + (if skip then 1 else 0), esc)
    {
      esc', skip' := StripPage(list[k], next, esc, skip, s, off);
      texts := texts[k := list[k].meat[..list[k].meatsz]];
    }
  }

  /** What the pages done so far keep, and what the rest of the stream keeps, is what the whole stream keeps. */
  ghost predicate Progress(done: seq<seq<Byte>>, s: seq<Byte>, off: nat, esc: bool, skip: bool) {
    Flat(done) + Strip(s, off + (if skip then 1 else 0), esc) == Stripped(s)
  }

  lemma StartsStripping(s: seq<Byte>)
    ensures Progress([], s, 0, false, false)
  {
  }

  lemma AllNonEmpty(texts: seq<seq<Byte>>)
    requires Packed(texts)
    ensures forall i | 0 <= i < |texts| :: texts[i] != []
  {
  }

  lemma FlatFirst(texts: seq<seq<Byte>>)
    requires texts != []
    ensures Flat(texts) == texts[0] + Flat(texts[1..])
  {
  }

  lemma PlainStripped(s: seq<Byte>)
    requires ESC !in s
    ensures Stripped(s) == s
  {
    NothingToStrip(s, 0);
    assert s[0..] == s;
  }

  /** writeall: the system may take fewer bytes at a time than it is offered. */
  method WriteAll(out: seq<Byte>, data: seq<Byte>) returns (out': seq<Byte>)
    ensures out' == out + data
  {
    out' := out;
    var done := 0;
    while done < |data|
      invariant 0 <= done <= |data| && out' == out + data[..done]
    {
      var taken: int := *;
      if taken < 1 || taken > |data| - done {
        taken := |data| - done;
      }
      out' := out' + data[done..done + taken];
      assert data[..done + taken] == data[..done] + data[done..done + taken];
      done := done + taken;
    }
    assert data[..done] == data;
  }

  lemma FlatNone()
    ensures Flat([]) == []
  {
  }

  lemma StripEnds(texts: seq<seq<Byte>>, s: seq<Byte>, esc: bool, skip: bool)
    requires Progress(texts, s, |s|, esc, skip)
    ensures Flat(texts) == Stripped(s)
  {
    assert Flat(texts) + [] == Flat(texts);
  }

  lemma ProgressOne(texts: seq<seq<Byte>>, k: nat, s: seq<Byte>, off: nat, off': nat, esc: bool, skip: bool, esc': bool,
        skip': bool)
    requires k < |texts| && Progress(texts[..k], s, off, esc, skip)
    requires texts[k] + Strip(s, off' + (if skip' then 1 else 0), esc') == Strip(s, off + (if skip then 1 else 0), esc)
    ensures Progress(texts[..k + 1], s, off', esc', skip')
  {
    hide Flat, Strip, Stripped;
    FlatAt(texts, k);
  }

  /** Where a page lies in the stream, and which byte follows it. */
  lemma PageInStream(texts: seq<seq<Byte>>, k: nat, off: nat)
    requires k < |texts| && off == |Flat(texts[..k])| && forall i | 0 <= i < |texts| :: texts[i] != []
    ensures var s := Flat(texts);
      && off + |texts[k]| <= |s| && texts[k] == s[off..off + |texts[k]|]
      && |Flat(texts[..k + 1])| == off + |texts[k]|
      && (off + |texts[k]| < |s| <==> k + 1 < |texts|)
      && (k + 1 < |texts| ==> s[off + |texts[k]|] == texts[k + 1][0])
  {
    FlatAt(texts, k);
    var rest := texts[k + 1..];
    if rest != [] {
      assert rest[0] == texts[k + 1];
    }
  }

  lemma FlatEmpty(texts: seq<seq<Byte>>)
    ensures Flat(texts + [[]]) == Flat(texts)
  {
    var none: seq<seq<Byte>> := [[]];
    FlatBoth(texts, none);
    assert |none[1..]| == 0 && Flat(none) == [];
  }

  lemma FlatLast(texts: seq<seq<Byte>>, more: seq<Byte>)
    requires texts != []
    ensures var n := |texts| - 1; Flat(texts[n := texts[n] + more]) == Flat(texts) + more
  {
    var n := |texts| - 1;
    var u := texts[n := texts[n] + more];
    FlatAt(texts, n);
    FlatAt(u, n);
    assert u[..n] == texts[..n] && u[n + 1..] == texts[n + 1..] == [];
    assert Flat(texts[..n]) + (texts[n] + more) == Flat(texts[..n]) + texts[n] + more;
  }
}
