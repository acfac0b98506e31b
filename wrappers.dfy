/** Option and Result, the two sum types the converters return, and `Collect`,
    the behaviour of a loop that applies `try!` to each element's result in turn. */
module Wrappers {

  datatype Option<+T> = None | Some(value: T)

  /** Rust's `Result<T, E>`; failure-compatible, so `:-` plays the part of `try!`. */
  datatype Result<+T, +E> = Ok(value: T) | Err(error: E) {

    predicate IsFailure() {
      Err?
    }

    function PropagateFailure<U>(): Result<U, E>
      requires Err?
    {
      Err(error)
    }

    function Extract(): T
      requires Ok?
    {
      value
    }
  }

  /** The outcome of walking `rs` from the front and stopping at the first error:
      the first `Err`, or all the values in order. Defined on the prefix, step by
      step, the way a `for` loop with `try!` builds its vector. */
  function Collect<T, E>(rs: seq<Result<T, E>>): Result<seq<T>, E>
    decreases |rs|
  {
    if rs == [] then Ok([])
    else match Collect(rs[..|rs| - 1])
      case Err(e) => Err(e)
      case Ok(xs) =>
        match rs[|rs| - 1]
        case Err(e) => Err(e)
        case Ok(x) => Ok(xs + [x])
  }

  /** One step of the loop: extending a successful prefix by one result. */
  lemma CollectStep<T, E>(rs: seq<Result<T, E>>, i: nat, xs: seq<T>)
    requires i < |rs|
    requires Collect(rs[..i]) == Ok(xs)
    ensures Collect(rs[..i + 1]) == match rs[i] case Ok(x) => Ok(xs + [x]) case Err(e) => Err(e)
  {
    assert rs[..i + 1][..i] == rs[..i];
  }

  /** `Collect` succeeds exactly when every element does, and then yields every
      element's value, in order. */
  lemma {:induction false} CollectOk<T, E>(rs: seq<Result<T, E>>)
    ensures Collect(rs).Ok? <==> forall i :: 0 <= i < |rs| ==> rs[i].Ok?
    ensures Collect(rs).Ok? ==>
      |Collect(rs).value| == |rs| &&
      forall i :: 0 <= i < |rs| ==> Collect(rs).value[i] == rs[i].value
  {
    if rs != [] {
      var init := rs[..|rs| - 1];
      CollectOk(init);
      assert forall i :: 0 <= i < |init| ==> init[i] == rs[i];
      if Collect(init).Ok? && rs[|rs| - 1].Ok? {
        var xs := Collect(init).value;
        assert Collect(rs).value == xs + [rs[|rs| - 1].value];
      } else if Collect(init).Err? {
        var k :| 0 <= k < |init| && init[k].Err?;
        assert rs[k].Err?;
      }
    }
  }

  /** The first error wins: when every element before `k` succeeds and element
      `k` fails, `Collect` returns element `k`'s error, whatever follows it. */
  lemma {:induction false} CollectFirstError<T, E>(rs: seq<Result<T, E>>, k: nat)
    requires k < |rs|
    requires forall i :: 0 <= i < k ==> rs[i].Ok?
    requires rs[k].Err?
    ensures Collect(rs) == Err(rs[k].error)
  {
    if k == |rs| - 1 {
      var init := rs[..|rs| - 1];
      assert forall i :: 0 <= i < |init| ==> init[i] == rs[i];
      CollectOk(init);
    } else {
      var init := rs[..|rs| - 1];
      assert forall i :: 0 <= i <= k ==> init[i] == rs[i];
      CollectFirstError(init, k);
    }
  }

  /** What a loop may rely on before it runs `try!` on element `k`: if that
      element fails, the whole walk ends with its error. */
  lemma CollectFailFast<T, E>(rs: seq<Result<T, E>>, k: nat)
    requires k < |rs|
    requires Collect(rs[..k]).Ok?
    ensures rs[k].Err? ==> Collect(rs) == Err(rs[k].error)
  {
    if rs[k].Err? {
      CollectOk(rs[..k]);
      assert forall i :: 0 <= i < k ==> rs[..k][i] == rs[i];
      CollectFirstError(rs, k);
    }
  }
}
