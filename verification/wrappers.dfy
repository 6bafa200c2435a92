/** Failure-carrying results shared by every module of the model. */
module Wrappers {

  /** A value that may be absent: a C# `null`, a missing dictionary key, a
      `FirstOrDefault` that found nothing. */
  datatype Option<+T> = None | Some(value: T) {
    function GetOr(default: T): T {
      match this
      case Some(v) => v
      case None => default
    }
  }

  /** The exceptions the modelled code can let escape. Each one aborts the
      request that raised it; nothing in the model catches them. */
  datatype Error =
    | SqlError          // the database rejected a statement that the code does not catch
    | DuplicateKey      // `ToDictionary` met the same key twice
    | MissingNode       // a dictionary indexer was given a key it does not hold
    | NullParentName    // `GetString` on a NULL column
    | FormatError       // `int.Parse` on text that is not an integer
    | Overflow          // `int.Parse` on an integer outside 32 bits
    | IndexOutOfRange   // an array index past the end of a `Split` result
    | NoSuchLocation    // `First()` on an empty query

  datatype Result<+T> = Ok(value: T) | Err(error: Error) {
    predicate IsFailure() {
      Err?
    }

    function PropagateFailure<U>(): Result<U>
      requires Err?
    {
      Err(error)
    }

    function Extract(): T
      requires Ok?
    {
      value
    }
  }

  /** The keys of an association list, in order. */
  function Firsts<K, V>(xs: seq<(K, V)>): (r: seq<K>)
    ensures |r| == |xs| && forall i | 0 <= i < |xs| :: r[i] == xs[i].0
  {
    if |xs| == 0 then [] else [xs[0].0] + Firsts(xs[1..])
  }

  /** `xs.Select(f).ToList()` where `f` may throw: the first failure in
      order ends it. */
  function MapAll<T, U>(f: T -> Result<U>, xs: seq<T>): (r: Result<seq<U>>)
    ensures r.Ok? <==> forall k | 0 <= k < |xs| :: f(xs[k]).Ok?
    ensures r.Ok? ==> |r.value| == |xs| && forall k | 0 <= k < |xs| :: r.value[k] == f(xs[k]).value
    ensures r.Err? ==> exists k | 0 <= k < |xs| :: f(xs[k]) == Err(r.error) && forall j | 0 <= j < k :: f(xs[j]).Ok?
  {
    if |xs| == 0 then Ok([])
    else
      var first := f(xs[0]);
      var rest := MapAll(f, xs[1..]);
      assert forall k | 1 <= k < |xs| :: xs[k] == xs[1..][k - 1];
      if first.Err? then Err(first.error)
      else if rest.Err? then
        var k :| 0 <= k < |xs[1..]| && f(xs[1..][k]) == Err(rest.error) && forall j | 0 <= j < k :: f(xs[1..][j]).Ok?;
        assert forall j | 1 <= j < k + 1 :: xs[j] == xs[1..][j - 1];
        Err(rest.error)
      else Ok([first.value] + rest.value)
  }
}
