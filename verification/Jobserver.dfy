/** The token pool shared with other make processes: read_jobserver and write_jobserver. */
module Jobserver {

  /** The size of the jobserver_chars buffer. */
  const CAPACITY := 1024
  const MAX_JOBCNT := 1000
  /** The byte written for a token that was not taken from the pipe. */
  const DOT := 46

  lemma SomeByte(m: multiset<int>)
    requires m != multiset{}
    ensures exists ch :: ch in m
  {
    assert (forall ch :: ch !in m) ==> m == multiset{};
  }

  class Jobserver {
    /** The bytes in the pipe, in no particular order since every process may take any of them. */
    var pipe: multiset<int>
    /** jobserver_chars up to jobserver_char_cnt. */
    var held: seq<int>
    /** The bytes held by other processes. */
    var away: multiset<int>
    /** Whether another process takes the byte, or a signal ends the poll, when a token is asked for the n-th time. */
    const beaten: nat -> bool
    /** How often a token was asked for. */
    var asked: nat

    ghost predicate Valid()
      reads this
    {
      |held| <= CAPACITY
    }

    /** Every token of the pool, wherever it is. */
    ghost function Tokens(): multiset<int>
      reads this
    {
      pipe + multiset(held) + away
    }

    /** The last time a token was asked for there was none, or another process was faster. */
    ghost predicate Refused()
      reads this
    {
      pipe == multiset{} || (asked > 0 && beaten(asked - 1))
    }

    /** A pool hosted for `jobcnt` jobs: one job needs no token. */
    constructor Host(jobcnt: int)
      requires 1 <= jobcnt <= MAX_JOBCNT
      ensures Valid() && held == [] && |Tokens()| == jobcnt - 1
    {
      var anything: nat -> bool := *;
      beaten := anything;
      pipe, held, away, asked := multiset{}[DOT := jobcnt - 1], [], multiset{}, 0;
    }

    /** Takes a token if there is one and no other process is faster. */
    method Read() returns (ok: bool)
      requires Valid()
      modifies this
      ensures Valid()
      ensures asked == old(asked) + 1 && away == old(away)
      ensures ok <==> old(pipe) != multiset{} && !beaten(old(asked))
      ensures !ok ==> pipe == old(pipe) && held == old(held)
      ensures ok && |old(held)| < CAPACITY ==>
        |held| == |old(held)| + 1 && old(held) <= held && Tokens() == old(Tokens())
      ensures ok && |old(held)| == CAPACITY ==> held == old(held) && |Tokens()| == |old(Tokens())| - 1
    {
      asked := asked + 1;
      if pipe == multiset{} || beaten(asked - 1) {
        return false;
      }
      SomeByte(pipe);
      var ch :| ch in pipe;
      pipe := pipe - multiset{ch};
      if |held| < CAPACITY {
        assert held + [ch] == old(held) + [ch];
        held := held + [ch];
        assert old(pipe) == pipe + multiset{ch};
      } else {
        assert old(pipe) == pipe + multiset{ch};
      }
      return true;
    }

    /** Gives a token back: the last one taken, or a fresh one when none is held. */
    method Write()
      requires Valid()
      modifies this
      ensures Valid() && away == old(away) && asked == old(asked)
      ensures old(held) != [] ==> held == old(held)[..|old(held)| - 1] && Tokens() == old(Tokens())
      ensures old(held) == [] ==> held == [] && Tokens() == old(Tokens()) + multiset{DOT}
    {
      if held != [] {
        var ch := held[|held| - 1];
        assert held == held[..|held| - 1] + [ch];
        held := held[..|held| - 1];
        pipe := pipe + multiset{ch};
      } else {
        pipe := pipe + multiset{DOT};
      }
    }

    /** Other processes take tokens from the pipe and put theirs back. */
    method Others()
      requires Valid()
      modifies this`pipe, this`away
      ensures Tokens() == old(Tokens())
    {
      var taken: multiset<int> := *;
      var given: multiset<int> := *;
      if taken <= pipe && given <= away {
        pipe, away := pipe - taken + given, away - given + taken;
      }
    }
  }
}
