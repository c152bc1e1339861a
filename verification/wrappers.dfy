/** The optional value used for lookups that can miss. */
module Wrappers {

  datatype Option<+T> = None | Some(value: T)

  /** The values of the Some entries, in order. */
  function Somes<T(==,!new)>(xs: seq<Option<T>>): (r: seq<T>)
    ensures |r| <= |xs|
    ensures forall v :: v in r <==> Some(v) in xs
    ensures (forall k :: 0 <= k < |xs| ==> xs[k].Some?) ==>
      |r| == |xs| && forall k :: 0 <= k < |xs| ==> Some(r[k]) == xs[k]
    decreases |xs|
  {
    if xs == [] then []
    else
      var rest := Somes(xs[1..]);
      assert xs == [xs[0]] + xs[1..];
      assert forall k :: 1 <= k < |xs| ==> xs[k] == xs[1..][k - 1];
      match xs[0]
      case None => rest
      case Some(v) => [v] + rest
  }
}
