/** The optional value used wherever the Java code returns or stores `null`,
    usable with `:-` so that parsers can stop at the first failure. */
module Wrappers {

  datatype Option<+T> = None | Some(value: T) {

    predicate IsFailure() {
      None?
    }

    function PropagateFailure<U>(): Option<U>
      requires None?
    {
      None
    }

    function Extract(): T
      requires Some?
    {
      value
    }
  }

  /** `f` applied to every element, in order, stopping at the first failure:
      the shape of a loop that reads one record per line and lets a bad line
      abort the whole read. */
  function MapAll<A, B>(xs: seq<A>, f: A -> Option<B>): (r: Option<seq<B>>)
    ensures r.Some? <==> forall k :: 0 <= k < |xs| ==> f(xs[k]).Some?
    ensures r.Some? ==> |r.value| == |xs| && forall k :: 0 <= k < |xs| ==> f(xs[k]) == Some(r.value[k])
  {
    if |xs| == 0 then Some([])
    else
      var head :- f(xs[0]);
      var rest :- MapAll(xs[1..], f);
      Some([head] + rest)
  }

  /** The values of the elements `f` maps to `Some`, in order; the others are
      skipped: the shape of a loop that reads one record per line and passes
      over the lines it cannot read. */
  function KeepSome<A, B>(xs: seq<A>, f: A -> Option<B>): (r: seq<B>)
    ensures |r| <= |xs|
    ensures forall j :: 0 <= j < |r| ==> exists k :: 0 <= k < |xs| && f(xs[k]) == Some(r[j])
    ensures forall k :: 0 <= k < |xs| && f(xs[k]).Some? ==> f(xs[k]).value in r
    ensures (forall k :: 0 <= k < |xs| ==> f(xs[k]).Some?) ==>
              |r| == |xs| && forall k :: 0 <= k < |xs| ==> f(xs[k]) == Some(r[k])
  {
    if |xs| == 0 then []
    else
      var rest := KeepSome(xs[1..], f);
      assert forall k :: 0 <= k < |xs| - 1 ==> xs[1..][k] == xs[k + 1];
      match f(xs[0])
      case Some(y) => [y] + rest
      case None => rest
  }

  /** Reading one more element adds its value at the end when `f` maps it to
      `Some`, and nothing otherwise: the kept values stay in input order,
      each once. */
  lemma {:induction false} KeepSomeAppend<A, B>(xs: seq<A>, x: A, f: A -> Option<B>)
    ensures KeepSome(xs + [x], f) == KeepSome(xs, f) + (if f(x).Some? then [f(x).value] else [])
  {
    if |xs| > 0 {
      assert (xs + [x])[1..] == xs[1..] + [x];
      assert (xs + [x])[0] == xs[0];
      KeepSomeAppend(xs[1..], x, f);
    } else {
      assert xs + [x] == [x];
    }
  }
}
