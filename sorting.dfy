/**
 * `sort.Strings`: sorts a slice of strings in place into ascending byte-wise
 * lexicographic order, and what sortedness means for a duplicate-free slice.
 */
module Sorting {
  import opened GoStrings

  /** Each element is no smaller than the one before it. */
  predicate Sorted(s: seq<string>)
  {
    forall k :: 0 < k < |s| ==> !Less(s[k], s[k - 1])
  }

  /** Every element is strictly smaller than every later element. */
  predicate StrictlyAscending(s: seq<string>)
  {
    forall i, j :: 0 <= i < j < |s| ==> Less(s[i], s[j])
  }

  /** No element occurs twice. */
  predicate Distinct(s: seq<string>)
  {
    forall i, j :: 0 <= i < j < |s| ==> s[i] != s[j]
  }

  /** Adjacent pairs inside `s[lo..hi]` are in order. */
  predicate SortedBetween(s: seq<string>, lo: int, hi: int)
  {
    forall k :: 0 <= lo < k < hi <= |s| ==> !Less(s[k], s[k - 1])
  }

  /** Exchanges `a[i - 1]` and `a[i]`. */
  method SwapDown(a: array<string>, i: int)
    requires 0 < i < a.Length
    modifies a
    ensures a[..] == old(a[..])[i - 1 := old(a[i])][i := old(a[i - 1])]
    ensures multiset(a[..]) == old(multiset(a[..]))
  {
    a[i - 1], a[i] := a[i], a[i - 1];
  }

  /** Sorts `a` in place (insertion sort, one adjacent swap at a time). */
  method SortStrings(a: array<string>)
    modifies a
    ensures Sorted(a[..])
    ensures multiset(a[..]) == old(multiset(a[..]))
  {
    var i := 0;
    while i < a.Length
      invariant 0 <= i <= a.Length
      invariant SortedBetween(a[..], 0, i)
      invariant multiset(a[..]) == old(multiset(a[..]))
    {
      var j := i;
      while j > 0 && Less(a[j], a[j - 1])
        invariant 0 <= j <= i
        invariant SortedBetween(a[..], 0, j)
        invariant SortedBetween(a[..], j, i + 1)
        invariant 0 < j < i ==> !Less(a[j + 1], a[j - 1])
        invariant multiset(a[..]) == old(multiset(a[..]))
      {
        LessAsymmetric(a[j], a[j - 1]);
        SwapDown(a, j);
        j := j - 1;
      }
      i := i + 1;
    }
  }

  /** A sorted sequence without duplicates is strictly ascending. */
  lemma {:induction false} SortedDistinctAscending(s: seq<string>)
    requires Sorted(s) && Distinct(s)
    ensures StrictlyAscending(s)
  {
    if |s| > 1 {
      var t := s[..|s| - 1];
      assert Sorted(t) && Distinct(t);
      SortedDistinctAscending(t);
      var n := |s| - 1;
      LessTotal(s[n - 1], s[n]);
      forall i | 0 <= i < n
        ensures Less(s[i], s[n])
      {
        if i < n - 1 {
          LessTransitive(s[i], s[n - 1], s[n]);
        }
      }
    }
  }

  /** A strictly ascending sequence has no duplicates. */
  lemma AscendingDistinct(s: seq<string>)
    requires StrictlyAscending(s)
    ensures Distinct(s)
  {
    forall i, j | 0 <= i < j < |s|
      ensures s[i] != s[j]
    {
      LessIrreflexive(s[i]);
    }
  }

  /** A duplicate-free sequence holds each element once. */
  lemma {:induction false} DistinctMultiplicity(s: seq<string>, x: string)
    requires Distinct(s)
    ensures multiset(s)[x] <= 1
  {
    if |s| > 0 {
      var t := s[..|s| - 1];
      assert s == t + [s[|s| - 1]];
      DistinctMultiplicity(t, x);
      assert s[|s| - 1] !in t;
    }
  }

  /** An element at two positions occurs at least twice. */
  lemma Repeated(t: seq<string>, i: int, j: int)
    requires 0 <= i < j < |t|
    ensures t[i] == t[j] ==> multiset(t)[t[i]] >= 2
  {
    assert t == t[..j] + t[j..];
    assert t[i] in t[..j];
    assert t[j] in t[j..];
  }

  /** Rearranging a duplicate-free sequence keeps it duplicate-free. */
  lemma DistinctPermutation(s: seq<string>, t: seq<string>)
    requires Distinct(s) && multiset(s) == multiset(t)
    ensures Distinct(t)
  {
    forall i, j | 0 <= i < j < |t|
      ensures t[i] != t[j]
    {
      DistinctMultiplicity(s, t[i]);
      Repeated(t, i, j);
    }
  }

  /** A duplicate-free sequence has as many elements as its set. */
  lemma {:induction false} DistinctCardinality(s: seq<string>)
    requires Distinct(s)
    ensures |set x | x in s| == |s|
  {
    if |s| > 0 {
      var t := s[..|s| - 1];
      DistinctCardinality(t);
      assert (set x | x in s) == (set x | x in t) + {s[|s| - 1]};
      assert s[|s| - 1] !in t;
    }
  }

  /** Strict ascent pins a sequence down: two with the same elements are equal. */
  lemma {:induction false} AscendingUnique(s: seq<string>, t: seq<string>)
    requires StrictlyAscending(s) && StrictlyAscending(t)
    requires forall x :: x in s <==> x in t
    ensures s == t
  {
    assert |s| > 0 ==> s[0] in t;
    assert |t| > 0 ==> t[0] in s;
    if |s| > 0 {
      // the first element of each is the least element of the common set
      var a, b := s[0], t[0];
      var i :| 0 <= i < |t| && t[i] == a;
      var j :| 0 <= j < |s| && s[j] == b;
      LessAsymmetric(a, b);
      assert i == 0 || j == 0;
      LessIrreflexive(a);
      forall x
        ensures x in s[1..] <==> x in t[1..]
      {
        if x in s[1..] {
          var k :| 0 <= k < |s| - 1 && s[1..][k] == x;
          assert x in t && x != t[0];
          var m :| 0 <= m < |t| && t[m] == x;
          assert t[1..][m - 1] == x;
        }
        if x in t[1..] {
          var k :| 0 <= k < |t| - 1 && t[1..][k] == x;
          assert x in s && x != s[0];
          var m :| 0 <= m < |s| && s[m] == x;
          assert s[1..][m - 1] == x;
        }
      }
      AscendingUnique(s[1..], t[1..]);
      assert s == [a] + s[1..] && t == [b] + t[1..];
    }
  }
}
