/** Repeated elements of a sequence, seen through its multiset. */
module Distinct {

  ghost predicate NoRepeats<T>(s: seq<T>) {
    forall i, j :: 0 <= i < j < |s| ==> s[i] != s[j]
  }

  /** A sequence without repeats holds each element at most once. */
  lemma {:induction false} NoRepeatsCountsAtMostOne<T>(s: seq<T>, x: T)
    requires NoRepeats(s)
    ensures multiset(s)[x] <= 1
  {
    if |s| > 0 {
      var tail := s[1..];
      assert s == [s[0]] + tail;
      NoRepeatsCountsAtMostOne(tail, x);
    }
  }

  /** Two positions holding the same element count it at least twice. */
  lemma RepeatCountsTwice<T>(s: seq<T>, i: nat, j: nat)
    requires i < j < |s| && s[i] == s[j]
    ensures multiset(s)[s[i]] >= 2
  {
    var front, back := s[..j], s[j..];
    assert s == front + back;
    assert s[i] == front[i];
    assert s[i] == back[0];
  }

  /** Taking part of a sequence without repeats cannot create a repeat. */
  lemma SubMultisetKeepsNoRepeats<T>(r: seq<T>, s: seq<T>)
    requires NoRepeats(s)
    requires multiset(r) <= multiset(s)
    ensures NoRepeats(r)
  {
    forall i, j | 0 <= i < j < |r|
      ensures r[i] != r[j]
    {
      if r[i] == r[j] {
        RepeatCountsTwice(r, i, j);
        NoRepeatsCountsAtMostOne(s, r[i]);
        assert false;
      }
    }
  }

  /** Dropping the head removes one copy of it from the multiset. */
  lemma DropHeadMultiset<T>(s: seq<T>)
    requires |s| > 0
    ensures multiset(s[1..]) == multiset(s) - multiset{s[0]}
  {
    assert s == [s[0]] + s[1..];
  }

  /** Dropping position `j` removes one copy of its element from the multiset. */
  lemma DropAtMultiset<T>(s: seq<T>, j: nat)
    requires j < |s|
    ensures multiset(s[..j] + s[j + 1..]) == multiset(s) - multiset{s[j]}
  {
    assert s == s[..j] + [s[j]] + s[j + 1..];
  }

  /** A position holding `x`, for an `x` the sequence contains. */
  lemma PositionOf<T>(s: seq<T>, x: T) returns (j: nat)
    requires x in multiset(s)
    ensures j < |s| && s[j] == x
  {
    assert x in s;
    j :| 0 <= j < |s| && s[j] == x;
  }
}
