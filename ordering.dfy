/**
 * Listing a finite set of rows as a sequence ordered by a key, as an `ORDER BY`
 * clause does; rows with equal keys come in an order the model leaves open.
 */
module Ordering {

  /** `x` is a row of `s` with the smallest key. */
  ghost predicate IsLeast<T>(x: T, s: set<T>, key: T -> int) {
    x in s && forall y :: y in s ==> key(x) <= key(y)
  }

  lemma {:induction false} LeastExists<T>(s: set<T>, key: T -> int)
    requires s != {}
    ensures exists x :: IsLeast(x, s, key)
    decreases |s|
  {
    var y :| y in s;
    if s == {y} {
      assert IsLeast(y, s, key);
    } else {
      LeastExists(s - {y}, key);
      var x :| IsLeast(x, s - {y}, key);
      if key(y) <= key(x) {
        assert IsLeast(y, s, key);
      } else {
        assert IsLeast(x, s, key);
      }
    }
  }

  /** The rows of `s`, each exactly once, in ascending order of `key`. */
  ghost function SortedBy<T(!new)>(s: set<T>, key: T -> int): (r: seq<T>)
    ensures |r| == |s|
    ensures forall i :: 0 <= i < |r| ==> r[i] in s
    ensures forall x :: x in s ==> x in r
    ensures forall i, j :: 0 <= i < j < |r| ==> r[i] != r[j]
    ensures forall i, j :: 0 <= i < j < |r| ==> key(r[i]) <= key(r[j])
    decreases |s|
  {
    if s == {} then []
    else
      LeastExists(s, key);
      var x :| IsLeast(x, s, key);
      [x] + SortedBy(s - {x}, key)
  }
}
