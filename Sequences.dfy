/** The array operations the catalog view relies on: `filter`, `find` and
    `pop` (the last element, if any), modelled on sequences. */
module Sequences {
  import opened Wrappers

  /** `Array.prototype.filter`: the elements satisfying `p`, in their original order. */
  function Filter<T(==)>(s: seq<T>, p: T -> bool): (r: seq<T>)
    ensures |r| <= |s|
    ensures forall k :: 0 <= k < |r| ==> r[k] in s && p(r[k])
    ensures forall k :: 0 <= k < |s| && p(s[k]) ==> s[k] in r
    decreases |s|
  {
    if s == [] then []
    else (if p(s[0]) then [s[0]] else []) + Filter(s[1..], p)
  }

  /** Filtering a concatenation filters each part and keeps them in order. */
  lemma {:induction false} FilterAppend<T>(a: seq<T>, b: seq<T>, p: T -> bool)
    ensures Filter(a + b, p) == Filter(a, p) + Filter(b, p)
    decreases |a|
  {
    if a == [] {
      assert a + b == b;
    } else {
      assert (a + b)[1..] == a[1..] + b;
      FilterAppend(a[1..], b, p);
    }
  }

  /** The index `Array.prototype.find` stops at: the first element satisfying `p`. */
  function FindIndex<T>(s: seq<T>, p: T -> bool): (r: Option<nat>)
    ensures r.Some? ==> r.value < |s| && p(s[r.value])
    ensures r.Some? ==> forall k :: 0 <= k < r.value ==> !p(s[k])
    ensures r.None? <==> forall k :: 0 <= k < |s| ==> !p(s[k])
    decreases |s|
  {
    if s == [] then None
    else if p(s[0]) then Some(0)
    else match FindIndex(s[1..], p)
      case None => None
      case Some(i) => Some(i + 1)
  }

  /** `Array.prototype.pop` read as a value: the last element, or `undefined`. */
  function Last<T>(s: seq<T>): (r: Option<T>)
    ensures r.None? <==> s == []
    ensures r.Some? ==> r.value == s[|s| - 1]
  {
    if s == [] then None else Some(s[|s| - 1])
  }

  /** The last element that survives a filter is the last element of the input
      satisfying `p`: every later element fails `p`. */
  lemma {:induction false} LastOfFilter<T>(s: seq<T>, p: T -> bool, x: T)
    requires Last(Filter(s, p)) == Some(x)
    ensures exists k :: 0 <= k < |s| && s[k] == x && p(x) && forall j :: k < j < |s| ==> !p(s[j])
    decreases |s|
  {
    var n := |s|;
    var front := s[..n - 1];
    assert s == front + [s[n - 1]];
    FilterAppend(front, [s[n - 1]], p);
    assert Filter([s[n - 1]], p) == (if p(s[n - 1]) then [s[n - 1]] else []) + Filter([], p);
    if p(s[n - 1]) {
      assert x == s[n - 1];
    } else {
      assert Filter(s, p) == Filter(front, p);
      LastOfFilter(front, p, x);
      var k :| 0 <= k < |front| && front[k] == x && p(x) && forall j :: k < j < |front| ==> !p(front[j]);
      assert s[k] == x;
      assert forall j :: k < j < n ==> !p(s[j]) by {
        forall j | k < j < n ensures !p(s[j]) {
          if j < n - 1 { assert s[j] == front[j]; }
        }
      }
    }
  }
}
