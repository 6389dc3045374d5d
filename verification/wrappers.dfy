/** The optional value used throughout the model for JavaScript's `null` and `undefined`. */
module Wrappers {

  datatype Option<+T> = None | Some(value: T) {

    /** Returns the value held in Some, or the default when None. */
    function GetOr(default: T): T {
      match this
      case Some(v) => v
      case None => default
    }
  }

  /** The values of f's Some results over xs, in order: a map followed by a filter. */
  function FilterMap<T, U>(f: T -> Option<U>, xs: seq<T>): (r: seq<U>)
    ensures |r| <= |xs|
    ensures r == [] <==> forall i :: 0 <= i < |xs| ==> f(xs[i]).None?
    ensures forall j :: 0 <= j < |r| ==> exists i :: 0 <= i < |xs| && f(xs[i]) == Some(r[j])
    decreases |xs|
  {
    if xs == [] then []
    else
      var head := match f(xs[0]) case None => [] case Some(y) => [y];
      var tail := FilterMap(f, xs[1..]);
      assert forall i :: 0 <= i < |xs| - 1 ==> xs[1..][i] == xs[i + 1];
      assert forall j :: |head| <= j < |head + tail| ==> (head + tail)[j] == tail[j - |head|];
      head + tail
  }

  /** Filtering concatenated lists concatenates the results. */
  lemma {:induction false} FilterMapAppend<T, U>(f: T -> Option<U>, a: seq<T>, b: seq<T>)
    ensures FilterMap(f, a + b) == FilterMap(f, a) + FilterMap(f, b)
    decreases |a|
  {
    if a == [] {
      assert a + b == b;
    } else {
      assert (a + b)[0] == a[0];
      assert (a + b)[1..] == a[1..] + b;
      FilterMapAppend(f, a[1..], b);
    }
  }
}
