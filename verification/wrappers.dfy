/** Optional values and results with an error, used in place of Python's
    `None` and of raised exceptions. */
module Wrappers {

  /** An optional value: `None` stands for Python's `None`. */
  datatype Option<+T> = None | Some(value: T)

  /** The outcome of an operation that can raise: `Err` carries what was raised. */
  datatype Result<+T, +E> = Ok(value: T) | Err(error: E)

  /** Entry `i` of `rs` is the first that failed. */
  ghost predicate FirstFailure<T, E>(rs: seq<Result<T, E>>, i: int)
  {
    && 0 <= i < |rs|
    && rs[i].Err?
    && forall k :: 0 <= k < i ==> rs[k].Ok?
  }

  /** The values of `rs` in order, or the error of the first entry that
      failed: what a loop that stops at its first exception produces. */
  function Collect<T, E>(rs: seq<Result<T, E>>): (r: Result<seq<T>, E>)
    ensures r.Ok? <==> forall i :: 0 <= i < |rs| ==> rs[i].Ok?
    ensures r.Ok? ==> |r.value| == |rs|
    ensures r.Ok? ==> forall i :: 0 <= i < |rs| ==> rs[i] == Ok(r.value[i])
    ensures r.Err? ==> exists i :: FirstFailure(rs, i) && rs[i] == Err(r.error)
  {
    if rs == [] then Ok([])
    else
      match rs[0]
      case Err(e) =>
        assert FirstFailure(rs, 0);
        Err(e)
      case Ok(v) =>
        match Collect(rs[1..])
        case Err(e) =>
          ghost var i :| FirstFailure(rs[1..], i) && rs[1..][i] == Err(e);
          assert FirstFailure(rs, i + 1) by {
            forall k | 0 <= k < i + 1 ensures rs[k].Ok? {
              if k > 0 { assert rs[k] == rs[1..][k - 1]; }
            }
          }
          Err(e)
        case Ok(vs) => Ok([v] + vs)
  }

  /** Two collected results one after the other; the first error wins. */
  function Concat<T, E>(a: Result<seq<T>, E>, b: Result<seq<T>, E>): Result<seq<T>, E>
  {
    if a.Err? then a else if b.Err? then b else Ok(a.value + b.value)
  }

  /** Collecting a concatenation is concatenating the two collections. */
  lemma {:induction false} CollectAppend<T, E>(a: seq<Result<T, E>>, b: seq<Result<T, E>>)
    ensures Collect(a + b) == Concat(Collect(a), Collect(b))
  {
    if a == [] {
      assert a + b == b;
      if Collect(b).Ok? { assert [] + Collect(b).value == Collect(b).value; }
    } else {
      var ab := a + b;
      assert ab[0] == a[0];
      assert ab[1..] == a[1..] + b;
      CollectAppend(a[1..], b);
      match a[0]
      case Err(e) =>
        assert Collect(ab) == Err(e) && Collect(a) == Err(e);
      case Ok(v) =>
        var rest, tail := Collect(a[1..]), Collect(b);
        assert Collect(ab) == if rest.Err? then Err(rest.error) else if tail.Err? then Err(tail.error)
                              else Ok([v] + (rest.value + tail.value));
        if rest.Ok? && tail.Ok? {
          assert [v] + (rest.value + tail.value) == ([v] + rest.value) + tail.value;
        }
    }
  }
}
