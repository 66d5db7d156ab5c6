/**
 The invalidation list: the slots whose genome changed in the current repeat.
 Substages push contiguous runs of slots, and the list is sorted with
 `std::sort` before the redevelopment pass.
 */
module Invalidation {

  /** The slots lo, lo+1, ..., hi-1 in order. */
  function Range(lo: int, hi: int): (r: seq<int>)
    requires lo <= hi
    ensures |r| == hi - lo
    ensures forall i :: 0 <= i < |r| ==> r[i] == lo + i
  {
    seq(hi - lo, i => lo + i)
  }

  predicate Ascending(s: seq<int>)
  {
    forall i, j :: 0 <= i < j < |s| ==> s[i] <= s[j]
  }

  predicate StrictlyAscending(s: seq<int>)
  {
    forall i, j :: 0 <= i < j < |s| ==> s[i] < s[j]
  }

  /** Inserts x into an ascending list. */
  function Insert(x: int, s: seq<int>): (r: seq<int>)
    requires Ascending(s)
    ensures Ascending(r)
    ensures multiset(r) == multiset(s) + multiset{x}
    ensures |r| == |s| + 1
    ensures r[0] == if s == [] || x <= s[0] then x else s[0]
  {
    if s == [] then [x]
    else if x <= s[0] then ConsAscending(x, s); [x] + s
    else
      AscendingTail(s);
      TailMultiset(s);
      var rest := Insert(x, s[1..]);
      ConsAscending(s[0], rest);
      [s[0]] + rest
  }

  /** A head no larger than the first element of an ascending list keeps it ascending. */
  lemma ConsAscending(h: int, t: seq<int>)
    requires Ascending(t) && (t == [] || h <= t[0])
    ensures Ascending([h] + t)
  {
    forall i, j | 0 <= i < j < |[h] + t|
      ensures ([h] + t)[i] <= ([h] + t)[j]
    {
      if i == 0 {
        assert t[0] <= t[j - 1];
      } else {
        assert ([h] + t)[i] == t[i - 1] && ([h] + t)[j] == t[j - 1];
      }
    }
  }

  /**
   The effect of `std::sort` on the list: an ascending rearrangement of it. By
   SortedPermutationUnique every sorting algorithm gives this same list.
   */
  function Sort(s: seq<int>): (r: seq<int>)
    ensures Ascending(r)
    ensures multiset(r) == multiset(s)
  {
    if s == [] then []
    else
      assert s == [s[0]] + s[1..];
      Insert(s[0], Sort(s[1..]))
  }

  /** Two ascending lists with the same elements are equal, so the sorted order is unique. */
  lemma {:induction false} SortedPermutationUnique(a: seq<int>, b: seq<int>)
    requires Ascending(a) && Ascending(b)
    requires multiset(a) == multiset(b)
    ensures a == b
    decreases |a|
  {
    if a == [] || b == [] {
      assert |a| == |multiset(a)| == |multiset(b)| == |b|;
    } else {
      HeadsEqual(a, b);
      AscendingTail(a);
      AscendingTail(b);
      TailMultiset(a);
      TailMultiset(b);
      SortedPermutationUnique(a[1..], b[1..]);
      assert a == [a[0]] + a[1..] && b == [b[0]] + b[1..];
    }
  }

  /** Two non-empty ascending lists with the same elements have the same head, their least element. */
  lemma HeadsEqual(a: seq<int>, b: seq<int>)
    requires Ascending(a) && Ascending(b) && a != [] && b != []
    requires multiset(a) == multiset(b)
    ensures a[0] == b[0]
  {
    assert a[0] in multiset(a) && b[0] in multiset(b);
    FirstIsLeast(b, a[0]);
    FirstIsLeast(a, b[0]);
  }

  /** The tail of an ascending list is ascending. */
  lemma AscendingTail(s: seq<int>)
    requires Ascending(s) && s != []
    ensures Ascending(s[1..])
  {
    forall i, j | 0 <= i < j < |s[1..]|
      ensures s[1..][i] <= s[1..][j]
    {
      assert s[1..][i] == s[i + 1] && s[1..][j] == s[j + 1];
    }
  }

  /** The tail's elements are the list's without its head. */
  lemma TailMultiset(s: seq<int>)
    requires s != []
    ensures multiset(s[1..]) == multiset(s) - multiset{s[0]}
  {
    assert s == [s[0]] + s[1..];
    assert multiset(s) == multiset{s[0]} + multiset(s[1..]);
  }

  /** The head of an ascending list is at most each of its elements. */
  lemma FirstIsLeast(s: seq<int>, y: int)
    requires Ascending(s) && y in multiset(s)
    ensures s != [] && s[0] <= y
  {
    assert y in s;
    var i :| 0 <= i < |s| && s[i] == y;
  }

  /** Sorting keeps exactly the members of the list. */
  lemma SortMembers(s: seq<int>)
    ensures forall x :: x in Sort(s) <==> x in s
  {
    assert forall x :: x in Sort(s) <==> x in multiset(Sort(s));
    assert forall x :: x in s <==> x in multiset(s);
  }

  /** Slot k of a run lies in the run. */
  lemma InRange(lo: int, hi: int, k: int)
    requires lo <= k < hi
    ensures k in Range(lo, hi)
  {
    assert Range(lo, hi)[k - lo] == k;
  }

  /** Sorting a list that is already ascending leaves it as it is. */
  lemma SortOfAscending(s: seq<int>)
    requires Ascending(s)
    ensures Sort(s) == s
  {
    SortedPermutationUnique(Sort(s), s);
  }

  /** A strictly ascending list of slots below hi, followed by the run [lo, hi'), stays strictly ascending. */
  lemma AppendRange(s: seq<int>, lo: int, hi: int)
    requires StrictlyAscending(s) && lo <= hi
    requires forall i :: 0 <= i < |s| ==> s[i] < lo
    ensures StrictlyAscending(s + Range(lo, hi))
  {
  }
}
