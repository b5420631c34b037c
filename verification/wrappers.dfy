/** Failure-compatible wrappers shared by every module of the model:
    Python's `None` becomes `None`, a raised exception becomes `Failure`. */
module Wrappers {

  datatype Option<+T> = None | Some(value: T) {

    predicate IsFailure() {
      None?
    }

    function PropagateFailure<U>(): Option<U>
      requires None?
    {
      None
    }

    function Extract(): T
      requires Some?
    {
      value
    }

    function GetOr(default: T): T {
      match this
      case Some(v) => v
      case None => default
    }
  }

  datatype Result<+R, +E> = Success(value: R) | Failure(error: E) {

    predicate IsFailure() {
      Failure?
    }

    function PropagateFailure<U>(): Result<U, E>
      requires Failure?
    {
      Failure(error)
    }

    function Extract(): R
      requires Success?
    {
      value
    }
  }

  /** Keeps the present values of a sequence of options, in order
      (Python's `[x for x in xs if x is not None]`). */
  function Somes<T>(xs: seq<Option<T>>): (r: seq<T>)
    ensures |r| <= |xs|
  {
    if |xs| == 0 then []
    else if xs[0].Some? then [xs[0].value] + Somes(xs[1..])
    else Somes(xs[1..])
  }

  /** `Somes` is empty exactly when every option is absent. */
  lemma {:induction false} SomesEmptyIff<T>(xs: seq<Option<T>>)
    ensures Somes(xs) == [] <==> forall i :: 0 <= i < |xs| ==> xs[i].None?
  {
    if |xs| > 0 {
      SomesEmptyIff(xs[1..]);
      if xs[0].None? {
        assert forall i :: 1 <= i < |xs| ==> xs[i] == xs[1..][i - 1];
      }
    }
  }

  /** Every kept value comes from some present option, and every present
      option is kept. */
  lemma {:induction false} SomesMembers<T>(xs: seq<Option<T>>, v: T)
    ensures v in Somes(xs) <==> Some(v) in xs
  {
    if |xs| > 0 {
      SomesMembers(xs[1..], v);
      assert xs == [xs[0]] + xs[1..];
    }
  }

  /** Every kept value stands for a present option of the input. */
  lemma SomesFrom<T>(xs: seq<Option<T>>)
    ensures forall k :: 0 <= k < |Somes(xs)| ==> Some(Somes(xs)[k]) in xs
  {
    forall k | 0 <= k < |Somes(xs)| ensures Some(Somes(xs)[k]) in xs {
      SomesMembers(xs, Somes(xs)[k]);
    }
  }

  /** Filtering distributes over appending one more option. */
  lemma {:induction false} SomesAppend<T>(xs: seq<Option<T>>, x: Option<T>)
    ensures Somes(xs + [x]) == Somes(xs) + (if x.Some? then [x.value] else [])
  {
    if |xs| > 0 {
      assert (xs + [x])[1..] == xs[1..] + [x];
      SomesAppend(xs[1..], x);
    } else {
      assert ([x])[1..] == [];
    }
  }
  /** The sequences of `xss` joined in order (a flat-map's result). */
  function Concat<T>(xss: seq<seq<T>>): seq<T> {
    if |xss| == 0 then [] else xss[0] + Concat(xss[1..])
  }

  /** An element of the concatenation is an element of one of the parts, and
      every element of every part is in the concatenation. */
  lemma {:induction false} ConcatMembers<T>(xss: seq<seq<T>>, x: T)
    ensures x in Concat(xss) <==> exists i :: 0 <= i < |xss| && x in xss[i]
  {
    if |xss| > 0 {
      ConcatMembers(xss[1..], x);
      assert forall i :: 1 <= i < |xss| ==> xss[i] == xss[1..][i - 1];
      if x in Concat(xss[1..]) {
        var i :| 0 <= i < |xss[1..]| && x in xss[1..][i];
        assert x in xss[i + 1];
      }
    }
  }
}
