/**
 * A stable insertion sort by a total preorder `le`. Both places where the
 * resolver sorts a list and keeps its head (`list.sort(key=...)` and
 * `sorted(..., reverse=True)`) are stable sorts: among elements that compare
 * equal, the earlier one stays in front. `le(a, b)` reads "a may stand in
 * front of b"; inserting `x` before the first element `y` with `le(x, y)` keeps
 * `x` (which came earlier in the input) in front of its equals.
 */
module Sorting {

  ghost predicate TotalPreorder<T(!new)>(le: (T, T) -> bool) {
    && (forall a, b :: le(a, b) || le(b, a))
    && (forall a, b, c :: le(a, b) && le(b, c) ==> le(a, c))
  }

  ghost predicate Sorted<T>(s: seq<T>, le: (T, T) -> bool) {
    forall i, j :: 0 <= i < j < |s| ==> le(s[i], s[j])
  }

  /** `s[k]` is a least element of `s`, and no earlier element is also least. */
  ghost predicate IsFirstLeast<T>(s: seq<T>, k: int, le: (T, T) -> bool) {
    && 0 <= k < |s|
    && (forall j :: 0 <= j < |s| ==> le(s[k], s[j]))
    && (forall j :: 0 <= j < k ==> !le(s[j], s[k]))
  }

  function Insert<T>(x: T, s: seq<T>, le: (T, T) -> bool): (r: seq<T>)
    ensures multiset(r) == multiset(s) + multiset{x}
    ensures |r| == |s| + 1
  {
    if |s| == 0 || le(x, s[0]) then [x] + s
    else
      assert s == [s[0]] + s[1..];
      [s[0]] + Insert(x, s[1..], le)
  }

  function SortBy<T>(s: seq<T>, le: (T, T) -> bool): (r: seq<T>)
    ensures multiset(r) == multiset(s)
    ensures |r| == |s|
  {
    if |s| == 0 then []
    else
      assert s == [s[0]] + s[1..];
      Insert(s[0], SortBy(s[1..], le), le)
  }

  /** Sorting only reorders: the head of the sorted sequence is one of the input's elements. */
  lemma SortByHeadIsMember<T>(s: seq<T>, le: (T, T) -> bool)
    requires |s| > 0
    ensures exists k :: 0 <= k < |s| && SortBy(s, le)[0] == s[k]
  {
    var r := SortBy(s, le);
    assert r[0] in multiset(r);
    assert r[0] in s;
  }

  lemma {:induction false} InsertSorted<T(!new)>(x: T, s: seq<T>, le: (T, T) -> bool)
    requires TotalPreorder(le)
    requires Sorted(s, le)
    ensures Sorted(Insert(x, s, le), le)
  {
    if |s| == 0 || le(x, s[0]) {
      var r := [x] + s;
      forall i, j | 0 <= i < j < |r| ensures le(r[i], r[j]) {
        if i == 0 {
          assert le(s[0], r[j]);
        }
      }
    } else {
      var u, t := s[1..], Insert(x, s[1..], le);
      InsertSorted(x, u, le);
      forall j | 0 <= j < |u| ensures le(s[0], u[j]) {
        assert u[j] == s[j + 1];
      }
      BoundedBelow(s[0], x, u, t, le);
      var r := [s[0]] + t;
      forall i, j | 0 <= i < j < |r| ensures le(r[i], r[j]) {
        assert r[j] == t[j - 1];
        if i > 0 {
          assert r[i] == t[i - 1];
        }
      }
    }
  }

  /** If `h` may precede `x` and every element of `u`, it may precede every element of `u` with `x` added. */
  lemma BoundedBelow<T>(h: T, x: T, u: seq<T>, t: seq<T>, le: (T, T) -> bool)
    requires multiset(t) == multiset(u) + multiset{x}
    requires le(h, x)
    requires forall j :: 0 <= j < |u| ==> le(h, u[j])
    ensures forall i :: 0 <= i < |t| ==> le(h, t[i])
  {
    forall i | 0 <= i < |t| ensures le(h, t[i]) {
      assert t[i] in multiset(t);
      if t[i] != x {
        assert t[i] in multiset(u);
        var j :| 0 <= j < |u| && u[j] == t[i];
      }
    }
  }

  /** The sort puts every element in front of the ones it may precede. */
  lemma {:induction false} SortByIsSorted<T(!new)>(s: seq<T>, le: (T, T) -> bool)
    requires TotalPreorder(le)
    ensures Sorted(SortBy(s, le), le)
  {
    if |s| > 0 {
      SortByIsSorted(s[1..], le);
      InsertSorted(s[0], SortBy(s[1..], le), le);
    }
  }

  /** Two first-least positions of one sequence coincide. */
  lemma FirstLeastUnique<T>(s: seq<T>, k1: int, k2: int, le: (T, T) -> bool)
    requires IsFirstLeast(s, k1, le)
    requires IsFirstLeast(s, k2, le)
    ensures k1 == k2
  {
    assert le(s[k1], s[k2]) && le(s[k2], s[k1]);
  }

  /**
   * The head of the stable sort is the first least element of the input:
   * this is what taking `[0]` of a stably sorted list returns.
   */
  lemma {:induction false} SortByHead<T(!new)>(s: seq<T>, le: (T, T) -> bool) returns (k: nat)
    requires TotalPreorder(le)
    requires |s| > 0
    ensures IsFirstLeast(s, k, le)
    ensures SortBy(s, le)[0] == s[k]
  {
    var rest := s[1..];
    assert s == [s[0]] + rest;
    if |rest| == 0 {
      k := 0;
      assert le(s[0], s[0]);
    } else {
      var m := SortByHead(rest, le);
      if le(s[0], rest[m]) {
        k := 0;
        HeadIsFirstLeast(s[0], rest, m, le);
      } else {
        k := m + 1;
        TailLeastIsFirstLeast(s[0], rest, m, le);
      }
    }
  }

  /** An element that may precede the first least element of `rest` is the first least of itself followed by `rest`. */
  lemma HeadIsFirstLeast<T(!new)>(h: T, rest: seq<T>, m: int, le: (T, T) -> bool)
    requires TotalPreorder(le)
    requires IsFirstLeast(rest, m, le)
    requires le(h, rest[m])
    ensures IsFirstLeast([h] + rest, 0, le)
  {
    var s := [h] + rest;
    forall j | 0 <= j < |s| ensures le(h, s[j]) {
      if j == 0 {
        assert le(h, h);
      } else {
        assert s[j] == rest[j - 1];
        assert le(rest[m], rest[j - 1]);
      }
    }
  }

  /** Otherwise the first least element of `rest` is also the first least of `h` followed by `rest`. */
  lemma TailLeastIsFirstLeast<T(!new)>(h: T, rest: seq<T>, m: int, le: (T, T) -> bool)
    requires TotalPreorder(le)
    requires IsFirstLeast(rest, m, le)
    requires !le(h, rest[m])
    ensures IsFirstLeast([h] + rest, m + 1, le)
  {
    var s := [h] + rest;
    assert s[m + 1] == rest[m];
    assert le(rest[m], h);
    forall j | 0 <= j < |s| ensures le(s[m + 1], s[j]) {
      if j > 0 {
        assert s[j] == rest[j - 1];
      }
    }
    forall j | 0 <= j < m + 1 ensures !le(s[j], s[m + 1]) {
      if j > 0 {
        assert s[j] == rest[j - 1];
      }
    }
  }
}
