/** Option: the model's stand-in for JavaScript's `undefined`/`null` and for
    "no match" results of searches. */
module Wrappers {

  datatype Option<+T> = None | Some(value: T) {

    /** The value, or `default` when absent (the `x || default` and `x ?? default` idioms). */
    function GetOr(default: T): T {
      match this
      case Some(v) => v
      case None => default
    }
  }

  /** The present values of a list of options, in order (a `filter` of the
      non-null entries). */
  function Somes<T>(xs: seq<Option<T>>): (r: seq<T>)
    ensures |r| <= |xs|
    ensures forall k :: 0 <= k < |r| ==> Some(r[k]) in xs
  {
    if |xs| == 0 then []
    else (if xs[0].Some? then [xs[0].value] else []) + Somes(xs[1..])
  }

  lemma {:induction false} SomesAppend<T>(a: seq<Option<T>>, b: seq<Option<T>>)
    ensures Somes(a + b) == Somes(a) + Somes(b)
  {
    if |a| == 0 {
      assert a + b == b;
    } else {
      assert (a + b)[0] == a[0];
      assert (a + b)[1..] == a[1..] + b;
      SomesAppend(a[1..], b);
    }
  }

  /** An entry contributes its value, if any, at its own place. */
  lemma SomesInPlace<T>(a: seq<Option<T>>, x: Option<T>, b: seq<Option<T>>)
    ensures Somes(a + [x] + b) == Somes(a) + (if x.Some? then [x.value] else []) + Somes(b)
  {
    SomesAppend(a + [x], b);
    SomesAppend(a, [x]);
    assert [x][1..] == [];
  }
}
