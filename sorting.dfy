/** Selecting paths by a predicate (a list comprehension with a condition) and
    sorting them in place (`list.sort()` on strings) under Python's string order. */
module Sorting {
  import opened Strings

  /** `[x for x in s if keep(x)]`. */
  function Filter(s: seq<string>, keep: string -> bool): (r: seq<string>)
    ensures |r| <= |s|
    ensures forall x :: x in r <==> x in s && keep(x)
  {
    if s == [] then []
    else if keep(s[0]) then [s[0]] + Filter(s[1..], keep)
    else Filter(s[1..], keep)
  }

  /** The filter keeps every kept element as often as it occurs, and drops the rest. */
  lemma {:induction false} FilterCount(s: seq<string>, keep: string -> bool, x: string)
    ensures multiset(Filter(s, keep))[x] == if keep(x) then multiset(s)[x] else 0
  {
    if s != [] {
      FilterCount(s[1..], keep, x);
      assert s == [s[0]] + s[1..];
    }
  }

  /** Filtering two orderings of the same candidates keeps the same candidates. */
  lemma FilterPermutation(s: seq<string>, t: seq<string>, keep: string -> bool)
    requires multiset(s) == multiset(t)
    ensures multiset(Filter(s, keep)) == multiset(Filter(t, keep))
  {
    forall x ensures multiset(Filter(s, keep))[x] == multiset(Filter(t, keep))[x] {
      FilterCount(s, keep, x);
      FilterCount(t, keep, x);
    }
  }

  /** Ascending in Python's string order. */
  predicate Sorted(s: seq<string>)
  {
    forall i, j | 0 <= i < j < |s| :: StrLe(s[i], s[j])
  }

  /** The first element of an ascending sequence is below every element. */
  lemma SortedHeadLeast(a: seq<string>, x: string)
    requires Sorted(a) && x in a
    ensures StrLe(a[0], x)
  {
    var i :| 0 <= i < |a| && a[i] == x;
    if i == 0 { StrLeRefl(x); }
  }

  lemma MultisetTail(a: seq<string>, b: seq<string>)
    requires a != [] && b != [] && a[0] == b[0]
    requires multiset(a) == multiset(b)
    ensures multiset(a[1..]) == multiset(b[1..])
  {
    assert a == [a[0]] + a[1..] && b == [b[0]] + b[1..];
    assert multiset(a[1..]) == multiset(a) - multiset{a[0]};
    assert multiset(b[1..]) == multiset(b) - multiset{b[0]};
  }

  /** Two ascending orderings of the same strings are the same sequence: the
      sorted list depends only on which strings there are, not on the order the
      directory walk produced them in. */
  lemma {:induction false} SortedUnique(a: seq<string>, b: seq<string>)
    requires Sorted(a) && Sorted(b)
    requires multiset(a) == multiset(b)
    ensures a == b
    decreases |a|
  {
    if a == [] {
      assert |b| == |multiset(b)| == 0;
    } else {
      assert |b| == |multiset(b)| == |a|;
      assert a[0] in multiset(b) && b[0] in multiset(a);
      SortedHeadLeast(a, b[0]);
      SortedHeadLeast(b, a[0]);
      StrLeAntisym(a[0], b[0]);
      MultisetTail(a, b);
      SortedUnique(a[1..], b[1..]);
      assert a == [a[0]] + a[1..] && b == [b[0]] + b[1..];
    }
  }

  /** `a.sort()`: insertion sort, leaving `a` ascending and a permutation of what
      it held. */
  method SortInPlace(a: array<string>)
    modifies a
    ensures Sorted(a[..])
    ensures multiset(a[..]) == multiset(old(a[..]))
  {
    var i := 0;
    while i < a.Length
      invariant 0 <= i <= a.Length
      invariant Sorted(a[..i])
      invariant multiset(a[..]) == multiset(old(a[..]))
    {
      InsertLast(a, i);
      i := i + 1;
    }
  }

  /** Moves `a[i]` left into the ascending prefix `a[..i]`, so that `a[..i+1]` is ascending. */
  method InsertLast(a: array<string>, i: nat)
    requires i < a.Length
    requires Sorted(a[..i])
    modifies a
    ensures Sorted(a[..i + 1])
    ensures multiset(a[..]) == multiset(old(a[..]))
  {
    var j := i;
    assert SortedExcept(a[..], i, j) by {
      forall k, l | 0 <= k < l <= i && k != j && l != j ensures StrLe(a[..][k], a[..][l]) {
        assert a[..][k] == a[..i][k] && a[..][l] == a[..i][l];
      }
    }
    while j > 0 && !StrLe(a[j - 1], a[j])
      invariant 0 <= j <= i
      invariant SortedExcept(a[..], i, j)
      invariant LeastFrom(a[..], i, j)
      invariant multiset(a[..]) == multiset(old(a[..]))
    {
      SwapStep(a[..], i, j);
      a[j - 1], a[j] := a[j], a[j - 1];
      j := j - 1;
    }
    FinishInsert(a[..], i, j);
  }

  /** `s[..i+1]` is ascending except perhaps at position `j`. */
  predicate SortedExcept(s: seq<string>, i: int, j: int)
    requires 0 <= j <= i < |s|
  {
    forall k, l | 0 <= k < l <= i && k != j && l != j :: StrLe(s[k], s[l])
  }

  /** `s[j]` is below everything after it up to position `i`. */
  predicate LeastFrom(s: seq<string>, i: int, j: int)
    requires 0 <= j <= i < |s|
  {
    forall l | j < l <= i :: StrLe(s[j], s[l])
  }

  /** Swapping `s[j]` with its larger left neighbour moves the gap one place left. */
  lemma SwapStep(s: seq<string>, i: int, j: int)
    requires 0 < j <= i < |s|
    requires SortedExcept(s, i, j) && LeastFrom(s, i, j)
    requires !StrLe(s[j - 1], s[j])
    ensures var t := s[j - 1 := s[j]][j := s[j - 1]];
      SortedExcept(t, i, j - 1) && LeastFrom(t, i, j - 1) && multiset(t) == multiset(s)
  {
    var t := s[j - 1 := s[j]][j := s[j - 1]];
    StrLeTotal(s[j - 1], s[j]);
    forall k, l | 0 <= k < l <= i && k != j - 1 && l != j - 1 ensures StrLe(t[k], t[l]) {
      if k == j {
        assert t[k] == s[j - 1] && t[l] == s[l];
      } else if l == j {
        assert t[l] == s[j - 1] && t[k] == s[k];
      } else {
        assert t[k] == s[k] && t[l] == s[l];
      }
    }
    forall l | j - 1 < l <= i ensures StrLe(t[j - 1], t[l]) {
      if l > j {
        assert t[l] == s[l];
      }
    }
    assert multiset(t) == multiset(s) by {
      assert t == s[..j - 1] + [s[j], s[j - 1]] + s[j + 1..];
      assert s == s[..j - 1] + [s[j - 1], s[j]] + s[j + 1..];
    }
  }

  /** Once the gap's left neighbour is no larger, the prefix up to `i` is ascending. */
  lemma FinishInsert(s: seq<string>, i: int, j: int)
    requires 0 <= j <= i < |s|
    requires SortedExcept(s, i, j) && LeastFrom(s, i, j)
    requires j == 0 || StrLe(s[j - 1], s[j])
    ensures Sorted(s[..i + 1])
  {
    forall k, l | 0 <= k < l <= i ensures StrLe(s[k], s[l]) {
      if l == j && k < j - 1 {
        StrLeTrans(s[k], s[j - 1], s[j]);
      }
    }
    var p := s[..i + 1];
    forall k, l | 0 <= k < l < |p| ensures StrLe(p[k], p[l]) {
      assert p[k] == s[k] && p[l] == s[l];
    }
  }
}
