/** Failure-compatible wrappers shared by every puzzle module.

    `Option` models Rust's `Option`, `Result` models a computation that can
    fail: every `unwrap`, `panic!` or failed `assert!` of the original code
    becomes an `Err` carrying a short reason, so that the error path is part
    of the model instead of a precondition. */
module Wrappers {

  datatype Option<+T> = None | Some(value: T) {
    predicate IsFailure() {
      None?
    }

    function PropagateFailure<U>(): Option<U>
      requires None?
    {
      None
    }

    function Extract(): T
      requires Some?
    {
      value
    }
  }

  datatype Result<+T> = Ok(value: T) | Err(msg: string) {
    predicate IsFailure() {
      Err?
    }

    function PropagateFailure<U>(): Result<U>
      requires Err?
    {
      Err(msg)
    }

    function Extract(): T
      requires Ok?
    {
      value
    }
  }

  /** `Some(v)` becomes `Ok(v)`; `None` becomes the error `msg` (Rust's `ok_or`). */
  function OkOr<T>(o: Option<T>, msg: string): (r: Result<T>)
    ensures r.Ok? <==> o.Some?
    ensures r.Ok? ==> r.value == o.value
  {
    match o
    case Some(v) => Ok(v)
    case None => Err(msg)
  }

  /** `f` applied to every element, failing if any application fails (a
      Rust `map(..).collect::<Option<Vec<_>>>()`). */
  function MapAll<A, B>(xs: seq<A>, f: A -> Option<B>): (r: Option<seq<B>>)
    ensures r.Some? <==> forall i :: 0 <= i < |xs| ==> f(xs[i]).Some?
    ensures r.Some? ==> |r.value| == |xs| && forall i :: 0 <= i < |xs| ==> r.value[i] == f(xs[i]).value
  {
    if |xs| == 0 then Some([])
    else
      var y :- f(xs[0]);
      var rest :- MapAll(xs[1..], f);
      assert forall i :: 1 <= i < |xs| ==> xs[1..][i - 1] == xs[i];
      Some([y] + rest)
  }

  /** `f` applied to every element, stopping at the first error (a Rust
      `map(..).collect::<Result<Vec<_>, _>>()`, or a loop using `?`). */
  function MapAllOk<A, B>(xs: seq<A>, f: A -> Result<B>): (r: Result<seq<B>>)
    ensures r.Ok? <==> forall i :: 0 <= i < |xs| ==> f(xs[i]).Ok?
    ensures r.Ok? ==> |r.value| == |xs| && forall i :: 0 <= i < |xs| ==> r.value[i] == f(xs[i]).value
  {
    if |xs| == 0 then Ok([])
    else
      var y :- f(xs[0]);
      var rest :- MapAllOk(xs[1..], f);
      assert forall i :: 1 <= i < |xs| ==> xs[1..][i - 1] == xs[i];
      Ok([y] + rest)
  }

  lemma MapAllAppend<A, B>(a: seq<A>, b: seq<A>, f: A -> Option<B>)
    requires MapAll(a, f).Some? && MapAll(b, f).Some?
    ensures MapAll(a + b, f) == Some(MapAll(a, f).value + MapAll(b, f).value)
  {
    var ab := a + b;
    var va, vb := MapAll(a, f).value, MapAll(b, f).value;
    forall i | 0 <= i < |ab| ensures f(ab[i]).Some? && f(ab[i]).value == (va + vb)[i] {
      if i < |a| {
        assert ab[i] == a[i];
      } else {
        assert ab[i] == b[i - |a|];
      }
    }
    assert MapAll(ab, f).value == va + vb;
  }
}
