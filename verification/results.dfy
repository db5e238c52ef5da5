/** The outcome of an operation that the original program can abort by throwing.
    The tool never catches anything: an exception ends the run, so a failure
    carries only what kind of exception it was. */
module Results {

  /** Why the run stopped.
      NullReference: a missing attribute, node or header line was dereferenced.
      KeyNotFound: a dictionary lookup of a library that the map file never named.
      AssertionFailed: a Debug.Assert that was false (the Debug build is modelled). */
  datatype Fault = NullReference | KeyNotFound | AssertionFailed

  datatype Result<+T> = Success(value: T) | Failure(fault: Fault) {

    predicate IsFailure() {
      Failure?
    }

    function PropagateFailure<U>(): Result<U>
      requires Failure?
    {
      Failure(fault)
    }

    function Extract(): T
      requires Success?
    {
      value
    }
  }

  datatype Option<+T> = None | Some(value: T)

  /** Dereference a value that may be null: the `.Value` of a missing attribute. */
  function Require<T>(o: Option<T>): (r: Result<T>)
    ensures r.Success? <==> o.Some?
    ensures o.Some? ==> r.value == o.value
  {
    match o
    case Some(v) => Success(v)
    case None => Failure(NullReference)
  }

  /** A loop that applies a step that may throw to every element in order: the
      first element whose step throws ends the run with that exception, and
      otherwise every element is replaced by what its step returned. */
  function MapAll<A, B>(f: A -> Result<B>, xs: seq<A>): (r: Result<seq<B>>)
    ensures r.Success? <==> forall i :: 0 <= i < |xs| ==> f(xs[i]).Success?
    ensures r.Success? ==> |r.value| == |xs| && forall i :: 0 <= i < |xs| ==> f(xs[i]) == Success(r.value[i])
    ensures r.Failure? ==> exists i :: 0 <= i < |xs| && f(xs[i]) == Failure(r.fault)
    decreases |xs|
  {
    if |xs| == 0 then Success([])
    else
      assert forall i :: 1 <= i < |xs| ==> xs[i] == xs[1..][i - 1];
      var head :- f(xs[0]);
      var rest :- MapAll(f, xs[1..]);
      assert forall i :: 1 <= i < |xs| ==> ([head] + rest)[i] == rest[i - 1];
      Success([head] + rest)
  }
}
