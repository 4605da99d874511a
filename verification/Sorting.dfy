/** The numeric ascending sort the application asks of `Array.prototype.sort((a, b) => a - b)`,
    given as a function (the sort is a library call, not a loop of the application's own). */
module Sorting {
  import opened Domain

  predicate Sorted(s: seq<int>) {
    forall i, j :: 0 <= i < j < |s| ==> s[i] <= s[j]
  }

  predicate StrictlyIncreasing(s: seq<int>) {
    forall i, j :: 0 <= i < j < |s| ==> s[i] < s[j]
  }

  /** Inserts `x` into an ascending sequence, keeping it ascending. */
  function Insert(x: int, s: seq<int>): (r: seq<int>)
    requires Sorted(s)
    ensures Sorted(r)
    ensures multiset(r) == multiset(s) + multiset{x}
  {
    if s == [] || x <= s[0] then [x] + s
    else
      assert s == [s[0]] + s[1..];
      var rest := Insert(x, s[1..]);
      InsertBehindHead(x, s, rest);
      [s[0]] + rest
  }

  /** The head of `s` stays in front when `x` goes into its tail. */
  lemma InsertBehindHead(x: int, s: seq<int>, rest: seq<int>)
    requires Sorted(s) && s != [] && s[0] < x
    requires Sorted(rest) && multiset(rest) == multiset(s[1..]) + multiset{x}
    ensures Sorted([s[0]] + rest)
  {
    forall k | 0 <= k < |rest|
      ensures s[0] <= rest[k]
    {
      assert rest[k] in multiset(rest);
      if rest[k] != x {
        assert rest[k] in multiset(s[1..]);
      }
    }
  }

  /** The ascending rearrangement of `s`. */
  function SortAscending(s: seq<int>): (r: seq<int>)
    ensures Sorted(r)
    ensures multiset(r) == multiset(s)
  {
    if s == [] then []
    else
      assert s == s[..|s| - 1] + [s[|s| - 1]];
      Insert(s[|s| - 1], SortAscending(s[..|s| - 1]))
  }

  /** A sequence is duplicate-free exactly when no element occurs twice in its multiset. */
  lemma NoDupIffSingleOccurrences(s: seq<int>)
    ensures NoDup(s) <==> forall x :: multiset(s)[x] <= 1
  {
    if NoDup(s) {
      NoDupOccursOnce(s);
    } else {
      var i, j :| 0 <= i < j < |s| && s[i] == s[j];
      RepeatOccursTwice(s, i, j);
    }
  }

  lemma {:induction false} NoDupOccursOnce(s: seq<int>)
    requires NoDup(s)
    ensures forall x :: multiset(s)[x] <= 1
  {
    if s != [] {
      var init, last := s[..|s| - 1], s[|s| - 1];
      assert s == init + [last];
      assert NoDup(init) by {
        forall i, j | 0 <= i < j < |init| ensures init[i] != init[j] {
          assert init[i] == s[i] && init[j] == s[j];
        }
      }
      NoDupOccursOnce(init);
      assert last !in init by {
        forall k | 0 <= k < |init| ensures init[k] != last {
          assert init[k] == s[k];
        }
      }
      assert multiset(s) == multiset(init) + multiset{last};
    }
  }

  lemma RepeatOccursTwice(s: seq<int>, i: int, j: int)
    requires 0 <= i < j < |s| && s[i] == s[j]
    ensures multiset(s)[s[i]] >= 2
  {
    var x := s[i];
    assert s == s[..j] + s[j..];
    assert x in s[..j] by {
      assert s[..j][i] == x;
    }
    assert x in s[j..] by {
      assert s[j..][0] == x;
    }
    assert multiset(s)[x] == multiset(s[..j])[x] + multiset(s[j..])[x];
  }

  /** Sorting a duplicate-free sequence gives a strictly increasing one. */
  lemma SortedDistinctIsStrict(s: seq<int>, r: seq<int>)
    requires NoDup(s) && Sorted(r) && multiset(r) == multiset(s)
    ensures StrictlyIncreasing(r) && NoDup(r)
  {
    NoDupIffSingleOccurrences(s);
    NoDupIffSingleOccurrences(r);
  }

  /** Sorting a duplicate-free sequence gives the strictly ascending sequence of its elements. */
  function SortDistinct(s: seq<int>): (r: seq<int>)
    requires NoDup(s)
    ensures StrictlyIncreasing(r)
    ensures forall x :: x in r <==> x in s
  {
    var r := SortAscending(s);
    SortedDistinctIsStrict(s, r);
    assert forall x :: x in r <==> x in multiset(r);
    assert forall x :: x in s <==> x in multiset(s);
    r
  }
}
