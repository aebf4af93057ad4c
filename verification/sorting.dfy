/**
 * A stable insertion sort by a caller-supplied order, used to give the
 * model's SQL `ORDER BY` clauses a definite meaning. SQL leaves the order of
 * rows with equal keys unspecified; this model keeps their table order.
 */
module Sorting {

  /** `before` is a total preorder: every two elements are comparable and it is transitive. */
  ghost predicate TotalPreorder<T(!new)>(before: (T, T) -> bool)
  {
    && (forall a, b :: before(a, b) || before(b, a))
    && (forall a, b, c :: before(a, b) && before(b, c) ==> before(a, c))
  }

  /** Every element comes `before` every later one. */
  ghost predicate SortedBy<T>(s: seq<T>, before: (T, T) -> bool)
  {
    forall i, j :: 0 <= i < j < |s| ==> before(s[i], s[j])
  }

  /** Inserts `x` in front of the first element it may precede. */
  function InsertBy<T>(x: T, s: seq<T>, before: (T, T) -> bool): (r: seq<T>)
    ensures multiset(r) == multiset(s) + multiset{x}
    ensures |r| == |s| + 1
  {
    if s == [] then [x]
    else if before(x, s[0]) then [x] + s
    else
      assert s == [s[0]] + s[1..];
      [s[0]] + InsertBy(x, s[1..], before)
  }

  lemma {:induction false} InsertBySorted<T(!new)>(x: T, s: seq<T>, before: (T, T) -> bool)
    ensures TotalPreorder(before) && SortedBy(s, before) ==> SortedBy(InsertBy(x, s, before), before)
  {
    if !(TotalPreorder(before) && SortedBy(s, before)) {
    } else if s == [] {
    } else if before(x, s[0]) {
      var r := [x] + s;
      forall i, j | 0 <= i < j < |r| ensures before(r[i], r[j]) {
        if i > 0 {
          assert before(s[i - 1], s[j - 1]);
        } else if j > 1 {
          assert before(s[0], s[j - 1]);
        }
      }
    } else {
      assert before(s[0], x);
      var tail := InsertBy(x, s[1..], before);
      assert SortedBy(s[1..], before) by {
        forall i, j | 0 <= i < j < |s[1..]| ensures before(s[1..][i], s[1..][j]) {
          assert before(s[i + 1], s[j + 1]);
        }
      }
      InsertBySorted(x, s[1..], before);
      var r := [s[0]] + tail;
      forall j | 0 <= j < |tail| ensures before(s[0], tail[j]) {
        assert tail[j] in multiset(s[1..]) + multiset{x} by {
          assert tail[j] in multiset(tail);
        }
        if tail[j] == x {
        } else {
          assert tail[j] in s[1..];
          var k :| 0 <= k < |s[1..]| && s[1..][k] == tail[j];
          assert before(s[0], s[k + 1]);
        }
      }
      forall i, j | 0 <= i < j < |r| ensures before(r[i], r[j]) {
        if i > 0 {
          assert before(tail[i - 1], tail[j - 1]);
        } else {
          assert before(s[0], tail[j - 1]);
        }
      }
    }
  }

  /** The elements of `s` rearranged so that, for a total preorder, each comes `before` the next. */
  function SortBy<T(!new)>(s: seq<T>, before: (T, T) -> bool): (r: seq<T>)
    ensures multiset(r) == multiset(s)
    ensures |r| == |s|
    ensures TotalPreorder(before) ==> SortedBy(r, before)
  {
    if s == [] then []
    else
      var rest := SortBy(s[1..], before);
      assert s == [s[0]] + s[1..];
      InsertBySorted(s[0], rest, before);
      InsertBy(s[0], rest, before)
  }
}
