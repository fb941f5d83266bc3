/**
 * Go's ordering on strings and `sort.Strings`, as used by the reconciliation
 * loop (main.go:102) to put the healthy addresses of a service in ascending
 * order before the record table picks one.
 *
 * Go compares strings byte by byte.  Here a string is a sequence of
 * characters compared by code point; for strings that are valid UTF-8 the
 * two orders coincide, because UTF-8 encoding preserves code-point order.
 * Dafny's own `<=` on sequences is the prefix relation, so the lexicographic
 * order is defined here.
 */
module StringOrder {

  /** `a` sorts before or equal to `b` in Go's string order. */
  predicate LexLe(a: string, b: string)
  {
    if |a| == 0 then true
    else if |b| == 0 then false
    else if a[0] != b[0] then a[0] < b[0]
    else LexLe(a[1..], b[1..])
  }

  lemma {:induction false} LexLeReflexive(a: string)
    ensures LexLe(a, a)
  {
    if |a| > 0 {
      LexLeReflexive(a[1..]);
    }
  }

  lemma {:induction false} LexLeAntisymmetric(a: string, b: string)
    requires LexLe(a, b) && LexLe(b, a)
    ensures a == b
  {
    if |a| > 0 && |b| > 0 {
      LexLeAntisymmetric(a[1..], b[1..]);
      assert a == [a[0]] + a[1..];
      assert b == [b[0]] + b[1..];
    }
  }

  lemma {:induction false} LexLeTransitive(a: string, b: string, c: string)
    requires LexLe(a, b) && LexLe(b, c)
    ensures LexLe(a, c)
  {
    if |a| > 0 && |b| > 0 && |c| > 0 && a[0] == b[0] == c[0] {
      LexLeTransitive(a[1..], b[1..], c[1..]);
    }
  }

  lemma {:induction false} LexLeTotal(a: string, b: string)
    ensures LexLe(a, b) || LexLe(b, a)
  {
    if |a| > 0 && |b| > 0 && a[0] == b[0] {
      LexLeTotal(a[1..], b[1..]);
    }
  }

  /** Prepending a common prefix does not change the order of two strings. */
  lemma {:induction false} LexLeCommonPrefix(p: string, a: string, b: string)
    ensures LexLe(p + a, p + b) == LexLe(a, b)
  {
    if |p| > 0 {
      assert (p + a)[0] == p[0] == (p + b)[0];
      assert (p + a)[1..] == p[1..] + a;
      assert (p + b)[1..] == p[1..] + b;
      LexLeCommonPrefix(p[1..], a, b);
    } else {
      assert p + a == a && p + b == b;
    }
  }

  /** Ascending in Go's string order: every earlier element sorts before every later one. */
  predicate Sorted(s: seq<string>)
  {
    forall i, j :: 0 <= i < j < |s| ==> LexLe(s[i], s[j])
  }

  /** The first element of a sorted non-empty list is its least element. */
  lemma SortedHeadIsLeast(s: seq<string>, x: string)
    requires Sorted(s) && x in s
    ensures LexLe(s[0], x)
  {
    var j :| 0 <= j < |s| && s[j] == x;
    if j == 0 {
      LexLeReflexive(x);
    }
  }

  lemma SortedTail(s: seq<string>)
    requires |s| > 0 && Sorted(s)
    ensures Sorted(s[1..])
  {
    forall i, j | 0 <= i < j < |s| - 1 ensures LexLe(s[1..][i], s[1..][j]) {
      assert s[1..][i] == s[i + 1] && s[1..][j] == s[j + 1];
    }
  }

  lemma MultisetTail(s: seq<string>)
    requires |s| > 0
    ensures multiset(s[1..]) == multiset(s) - multiset{s[0]}
  {
    assert s == [s[0]] + s[1..];
  }

  /**
   * A list has exactly one ascending arrangement: two sorted lists with the
   * same elements are equal.  So every correct sort, stable or not, yields
   * the same result as `sort.Strings`.
   */
  lemma {:induction false} SortedUnique(a: seq<string>, b: seq<string>)
    requires Sorted(a) && Sorted(b)
    requires multiset(a) == multiset(b)
    ensures a == b
  {
    assert |a| == |multiset(a)| == |multiset(b)| == |b|;
    if |a| > 0 {
      assert a[0] in multiset(b);
      assert b[0] in multiset(a);
      SortedHeadIsLeast(b, a[0]);
      SortedHeadIsLeast(a, b[0]);
      LexLeAntisymmetric(a[0], b[0]);
      MultisetTail(a);
      MultisetTail(b);
      SortedTail(a);
      SortedTail(b);
      SortedUnique(a[1..], b[1..]);
      forall i | 0 < i < |a| ensures a[i] == b[i] {
        assert a[i] == a[1..][i - 1] && b[i] == b[1..][i - 1];
      }
    }
  }

  /** `y` sorts before or equal to every element of `s`. */
  predicate LowerBound(y: string, s: seq<string>)
  {
    forall z :: z in s ==> LexLe(y, z)
  }

  lemma SortedCons(h: string, t: seq<string>)
    requires LowerBound(h, t) && Sorted(t)
    ensures Sorted([h] + t)
  {
    var s := [h] + t;
    forall i, j | 0 <= i < j < |s| ensures LexLe(s[i], s[j]) {
      if i == 0 {
        assert s[j] == t[j - 1];
      } else {
        assert s[i] == t[i - 1] && s[j] == t[j - 1];
      }
    }
  }

  /** Inserts `x` into its place in a sorted list. */
  function Insert(x: string, s: seq<string>): (r: seq<string>)
    requires Sorted(s)
    ensures Sorted(r)
    ensures multiset(r) == multiset(s) + multiset{x}
  {
    if s == [] then [x]
    else if LexLe(x, s[0]) then
      assert LowerBound(x, s) by {
        forall z | z in s ensures LexLe(x, z) {
          SortedHeadIsLeast(s, z);
          LexLeTransitive(x, s[0], z);
        }
      }
      SortedCons(x, s);
      assert s == [s[0]] + s[1..];
      [x] + s
    else
      var t := Insert(x, s[1..]);
      assert LowerBound(s[0], t) by {
        forall z | z in t ensures LexLe(s[0], z) {
          assert z in multiset(t);
          if z == x {
            LexLeTotal(x, s[0]);
          } else {
            assert z in multiset(s[1..]);
            assert z in s;
            SortedHeadIsLeast(s, z);
          }
        }
      }
      SortedCons(s[0], t);
      assert s == [s[0]] + s[1..];
      [s[0]] + t
  }

  /** The reference definition of `sort.Strings`: the ascending arrangement of `s`. */
  function SortSeq(s: seq<string>): (r: seq<string>)
    ensures Sorted(r)
    ensures multiset(r) == multiset(s)
  {
    if s == [] then []
    else
      assert s == [s[0]] + s[1..];
      Insert(s[0], SortSeq(s[1..]))
  }

  /** Sorting neither adds nor drops an element. */
  lemma SortSeqSameElements(s: seq<string>)
    ensures forall x :: x in SortSeq(s) <==> x in s
  {
    forall x ensures x in SortSeq(s) <==> x in s {
      assert x in SortSeq(s) <==> x in multiset(SortSeq(s));
    }
  }

  /** Sorting a list that is already ascending leaves it as it is. */
  lemma SortSeqOfSorted(s: seq<string>)
    requires Sorted(s)
    ensures SortSeq(s) == s
  {
    SortedUnique(SortSeq(s), s);
  }

  /** `s[lo..hi]` is ascending, stated on indices of `s`. */
  predicate SortedBetween(s: seq<string>, lo: int, hi: int)
    requires 0 <= lo <= hi <= |s|
  {
    forall k, l :: lo <= k < l < hi ==> LexLe(s[k], s[l])
  }

  /**
   * While element `i` sinks into the ascending prefix `s[..i]`: it sits at
   * `j`, the parts before and from `j` are each ascending, and everything
   * before `j` sorts before everything after it.
   */
  predicate Sinking(s: seq<string>, i: int, j: int)
    requires 0 <= j <= i < |s|
  {
    SortedBetween(s, 0, j) && SortedBetween(s, j, i + 1) &&
    forall k, l :: 0 <= k < j < l <= i ==> LexLe(s[k], s[l])
  }

  lemma SinkingStart(s: seq<string>, i: int)
    requires 0 <= i < |s| && SortedBetween(s, 0, i)
    ensures Sinking(s, i, i)
  {
  }

  /** Swapping the sinking element with a larger predecessor keeps `Sinking` one place lower. */
  lemma SinkingSwap(s: seq<string>, i: int, j: int)
    requires 0 < j <= i < |s| && Sinking(s, i, j) && !LexLe(s[j - 1], s[j])
    ensures Sinking(s[j - 1 := s[j]][j := s[j - 1]], i, j - 1)
  {
    var t := s[j - 1 := s[j]][j := s[j - 1]];
    LexLeTotal(s[j - 1], s[j]);
    forall k, l | j - 1 <= k < l <= i ensures LexLe(t[k], t[l]) {
      if k == j - 1 && l > j {
        LexLeTransitive(s[j], s[j - 1], s[l]);
      }
    }
    forall k, l | 0 <= k < j - 1 < l <= i ensures LexLe(t[k], t[l]) {
      if l > j {
        LexLeTransitive(s[k], s[j - 1], s[l]);
      }
    }
  }

  /** Once the sinking element has reached its place, `s[..i + 1]` is ascending. */
  lemma SinkingDone(s: seq<string>, i: int, j: int)
    requires 0 <= j <= i < |s| && Sinking(s, i, j) && (j == 0 || LexLe(s[j - 1], s[j]))
    ensures SortedBetween(s, 0, i + 1)
  {
    forall k, l | 0 <= k < l <= i ensures LexLe(s[k], s[l]) {
      if k < j && l == j && k < j - 1 {
        LexLeTransitive(s[k], s[j - 1], s[j]);
      }
    }
  }

  /**
   * `sort.Strings(t)`: sorts the slice in place into ascending order.  The
   * result is the unique ascending arrangement of the old contents.
   */
  method SortStrings(a: array<string>)
    modifies a
    ensures Sorted(a[..])
    ensures multiset(a[..]) == multiset(old(a[..]))
    ensures a[..] == SortSeq(old(a[..]))
  {
    for i := 0 to a.Length
      invariant SortedBetween(a[..], 0, i)
      invariant multiset(a[..]) == multiset(old(a[..]))
    {
      SinkingStart(a[..], i);
      var j := i;
      while 0 < j && !LexLe(a[j - 1], a[j])
        invariant 0 <= j <= i
        invariant Sinking(a[..], i, j)
        invariant multiset(a[..]) == multiset(old(a[..]))
      {
        SinkingSwap(a[..], i, j);
        a[j - 1], a[j] := a[j], a[j - 1];
        j := j - 1;
      }
      SinkingDone(a[..], i, j);
    }
    SortedUnique(a[..], SortSeq(old(a[..])));
  }
}
