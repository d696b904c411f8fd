/** Optional values and results with an error, as used by every extraction step. */
module Wrappers {

  /** A value that may be absent: a regular-expression match that returned `null`. */
  datatype Option<+T> = None | Some(value: T)

  /** The outcome of an extraction: a value, or the reason the source would throw. */
  datatype Result<+T, +E> = Ok(value: T) | Err(error: E)

  /**
   * `xs.map(f)` where `f` may throw: the first failing element, in order, makes the whole
   * call fail, and no partial list is returned.
   */
  function MapResult<A, B, E>(xs: seq<A>, f: A --> Result<B, E>): (r: Result<seq<B>, E>)
    requires forall k :: 0 <= k < |xs| ==> f.requires(xs[k])
    ensures r.Ok? <==> forall k :: 0 <= k < |xs| ==> f(xs[k]).Ok?
    ensures r.Ok? ==> |r.value| == |xs| && forall k :: 0 <= k < |xs| ==> f(xs[k]) == Ok(r.value[k])
    ensures r.Err? ==> exists k :: 0 <= k < |xs| && f(xs[k]) == Err(r.error) && forall m :: 0 <= m < k ==> f(xs[m]).Ok?
  {
    if xs == [] then Ok([])
    else
      match f(xs[0])
      case Err(e) => Err(e)
      case Ok(b) =>
        assert forall k :: 0 <= k < |xs[1..]| ==> xs[1..][k] == xs[k + 1];
        match MapResult(xs[1..], f)
        case Err(e) =>
          assert exists k :: 0 <= k < |xs| && f(xs[k]) == Err(e) && forall m :: 0 <= m < k ==> f(xs[m]).Ok? by {
            var k :| 0 <= k < |xs[1..]| && f(xs[1..][k]) == Err(e) && forall m :: 0 <= m < k ==> f(xs[1..][m]).Ok?;
            assert f(xs[k + 1]) == Err(e);
            forall m | 0 <= m < k + 1 ensures f(xs[m]).Ok? {
              if m > 0 { assert xs[m] == xs[1..][m - 1]; }
            }
          }
          Err(e)
        case Ok(bs) =>
          assert forall k :: 1 <= k < |xs| ==> xs[k] == xs[1..][k - 1];
          Ok([b] + bs)
  }
}
