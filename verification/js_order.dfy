/**
  The ordering JavaScript's `Array.prototype.sort` uses when it is called
  without a comparator: both elements are converted to strings and the
  strings are compared code unit by code unit. For option indices this is
  the lexicographic order of their decimal spellings, so `[10, 9, 1]`
  sorts to `[1, 10, 9]`.

  The module proves that this comparison is a total order on `nat`, defines
  a sort under it, and shows that the sorted form of a sequence is
  determined by its multiset alone. The last fact is what makes grading
  independent of the order in which options were selected.
 */
module JsOrder {
  import opened Distinct

  /** The character for one decimal digit. */
  function Digit(d: nat): (c: char)
    requires d < 10
    ensures '0' <= c <= '9'
  {
    ((('0' as int) + d) as char)
  }

  /** `String(n)` for a non-negative integer: decimal, no leading zeros. */
  function Decimal(n: nat): (s: string)
    ensures |s| >= 1
    ensures n < 10 <==> |s| == 1
    decreases n
  {
    if n < 10 then [Digit(n)] else Decimal(n / 10) + [Digit(n % 10)]
  }

  /** JavaScript's `x <= y` on strings: lexicographic, a prefix sorts first. */
  predicate LexLe(s: string, t: string)
    decreases |s|
  {
    |s| == 0 || (|t| > 0 && (s[0] < t[0] || (s[0] == t[0] && LexLe(s[1..], t[1..]))))
  }

  /** The default comparator of `Array.prototype.sort`, on option indices. */
  predicate JsLe(a: nat, b: nat) {
    LexLe(Decimal(a), Decimal(b))
  }

  lemma {:induction false} LexLeReflexive(s: string)
    ensures LexLe(s, s)
    decreases |s|
  {
    if |s| > 0 {
      LexLeReflexive(s[1..]);
    }
  }

  lemma {:induction false} LexLeTotal(s: string, t: string)
    ensures LexLe(s, t) || LexLe(t, s)
    decreases |s|
  {
    if |s| > 0 && |t| > 0 && s[0] == t[0] {
      LexLeTotal(s[1..], t[1..]);
    }
  }

  lemma {:induction false} LexLeAntisymmetric(s: string, t: string)
    requires LexLe(s, t) && LexLe(t, s)
    ensures s == t
    decreases |s|
  {
    if |s| > 0 {
      LexLeAntisymmetric(s[1..], t[1..]);
      assert s == [s[0]] + s[1..] && t == [t[0]] + t[1..];
    }
  }

  lemma {:induction false} LexLeTransitive(s: string, t: string, u: string)
    requires LexLe(s, t) && LexLe(t, u)
    ensures LexLe(s, u)
    decreases |s|
  {
    if |s| > 0 && s[0] == t[0] && t[0] == u[0] {
      LexLeTransitive(s[1..], t[1..], u[1..]);
    }
  }

  /** Distinct indices have distinct decimal spellings. */
  lemma {:induction false} DecimalInjective(a: nat, b: nat)
    requires Decimal(a) == Decimal(b)
    ensures a == b
    decreases a
  {
    if a >= 10 && b >= 10 {
      var sa, sb := Decimal(a), Decimal(b);
      assert sa[..|sa| - 1] == Decimal(a / 10);
      assert sb[..|sb| - 1] == Decimal(b / 10);
      DecimalInjective(a / 10, b / 10);
      assert Digit(a % 10) == sa[|sa| - 1] == sb[|sb| - 1] == Digit(b % 10);
    }
  }

  lemma JsLeReflexive(a: nat)
    ensures JsLe(a, a)
  {
    LexLeReflexive(Decimal(a));
  }

  lemma JsLeTotal(a: nat, b: nat)
    ensures JsLe(a, b) || JsLe(b, a)
  {
    LexLeTotal(Decimal(a), Decimal(b));
  }

  lemma JsLeAntisymmetric(a: nat, b: nat)
    requires JsLe(a, b) && JsLe(b, a)
    ensures a == b
  {
    LexLeAntisymmetric(Decimal(a), Decimal(b));
    DecimalInjective(a, b);
  }

  lemma JsLeTransitive(a: nat, b: nat, c: nat)
    requires JsLe(a, b) && JsLe(b, c)
    ensures JsLe(a, c)
  {
    LexLeTransitive(Decimal(a), Decimal(b), Decimal(c));
  }

  /** Ten sorts before nine: the comparison is on spellings, not on values. */
  lemma TenBeforeNine()
    ensures JsLe(10, 9) && !JsLe(9, 10)
  {
    assert Decimal(10) == "10";
    assert Decimal(9) == "9";
  }

  ghost predicate Sorted(s: seq<nat>) {
    forall i, j :: 0 <= i < j < |s| ==> JsLe(s[i], s[j])
  }

  /** Places `x` before the first element it does not follow. */
  function Insert(x: nat, s: seq<nat>): seq<nat> {
    if |s| == 0 then [x]
    else if JsLe(x, s[0]) then [x] + s
    else [s[0]] + Insert(x, s[1..])
  }

  lemma {:induction false} InsertFacts(x: nat, s: seq<nat>)
    requires Sorted(s)
    ensures Sorted(Insert(x, s))
    ensures multiset(Insert(x, s)) == multiset(s) + multiset{x}
  {
    if |s| == 0 {
    } else if JsLe(x, s[0]) {
      forall j | 0 <= j < |s|
        ensures JsLe(x, s[j])
      {
        if j > 0 {
          JsLeTransitive(x, s[0], s[j]);
        }
      }
    } else {
      JsLeTotal(x, s[0]);
      var tail := s[1..];
      assert s == [s[0]] + tail;
      InsertFacts(x, tail);
      var rest := Insert(x, tail);
      forall k | 0 <= k < |rest|
        ensures JsLe(s[0], rest[k])
      {
        assert rest[k] in multiset(rest);
        if rest[k] != x {
          assert rest[k] in multiset(tail);
          var j :| 0 <= j < |tail| && tail[j] == rest[k];
          assert s[j + 1] == rest[k];
        }
      }
      assert Insert(x, s) == [s[0]] + rest;
    }
  }

  /**
    The default sort on option indices. V8 uses a different algorithm,
    but `SortIsCanonical` shows every correct sort agrees with this one.
   */
  function Sort(s: seq<nat>): (r: seq<nat>)
    ensures Sorted(r)
    ensures multiset(r) == multiset(s)
  {
    if |s| == 0 then []
    else
      var rest := Sort(s[1..]);
      InsertFacts(s[0], rest);
      assert s == [s[0]] + s[1..];
      Insert(s[0], rest)
  }

  /** The head of a sorted sequence comes no later than any of its elements. */
  lemma SortedHeadFirst(a: seq<nat>, x: nat)
    requires Sorted(a) && x in a
    ensures JsLe(a[0], x)
  {
    var j :| 0 <= j < |a| && a[j] == x;
    if j == 0 {
      JsLeReflexive(x);
    }
  }

  /** Dropping the head keeps a sequence sorted. */
  lemma SortedTail(a: seq<nat>)
    requires Sorted(a) && |a| > 0
    ensures Sorted(a[1..])
  {
  }

  /** Two sorted sequences holding the same multiset are the same sequence. */
  lemma {:induction false} SortedUnique(a: seq<nat>, b: seq<nat>)
    requires Sorted(a) && Sorted(b)
    requires multiset(a) == multiset(b)
    ensures a == b
  {
    if |a| == 0 {
      assert |multiset(b)| == 0;
    } else {
      assert |b| == |multiset(b)| == |multiset(a)| == |a|;
      assert a[0] in multiset(b) && b[0] in multiset(a);
      SortedHeadFirst(b, a[0]);
      SortedHeadFirst(a, b[0]);
      JsLeAntisymmetric(a[0], b[0]);
      DropHeadMultiset(a);
      DropHeadMultiset(b);
      SortedTail(a);
      SortedTail(b);
      SortedUnique(a[1..], b[1..]);
      assert a == [a[0]] + a[1..] && b == [b[0]] + b[1..];
    }
  }

  /** Any sorted rearrangement of `s` is exactly `Sort(s)`. */
  lemma SortIsCanonical(s: seq<nat>, r: seq<nat>)
    requires Sorted(r) && multiset(r) == multiset(s)
    ensures r == Sort(s)
  {
    SortedUnique(r, Sort(s));
  }

  /** Sorting identifies exactly the sequences that are rearrangements of each other. */
  lemma SortEqualIffSameMultiset(a: seq<nat>, b: seq<nat>)
    ensures Sort(a) == Sort(b) <==> multiset(a) == multiset(b)
  {
    if multiset(a) == multiset(b) {
      SortedUnique(Sort(a), Sort(b));
    }
  }

  /** A one-element sequence is already sorted. */
  lemma SortSingleton(i: nat)
    ensures Sort([i]) == [i]
  {
    assert [i][1..] == [];
  }
}
