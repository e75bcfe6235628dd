/** `getResponseCount` (src/store/api.js:80-93): classify each settled result
    of a batch of requests as an error or a success and count both kinds. */
module ResponseCount {

  /** One element of the `responses` array: a response value, or a value that
      is an instance of `Error` (a request that failed). */
  datatype Settled<R, E> = Ok(response: R) | Err(error: E)

  /** The object `{ successCount, errorCount }` the function returns. */
  datatype Counts = Counts(successCount: nat, errorCount: nat)

  /** The number of error elements; the prefix is counted first. */
  function ErrorCount<R, E>(rs: seq<Settled<R, E>>): (n: nat)
    ensures n <= |rs|
    decreases |rs|
  {
    if |rs| == 0 then 0
    else ErrorCount(rs[..|rs| - 1]) + (if rs[|rs| - 1].Err? then 1 else 0)
  }

  /** The number of success elements; the prefix is counted first. */
  function SuccessCount<R, E>(rs: seq<Settled<R, E>>): (n: nat)
    ensures n <= |rs|
    decreases |rs|
  {
    if |rs| == 0 then 0
    else SuccessCount(rs[..|rs| - 1]) + (if rs[|rs| - 1].Ok? then 1 else 0)
  }

  /** The positions of the error elements: an independent reference for
      `ErrorCount`. */
  function ErrorPositions<R, E>(rs: seq<Settled<R, E>>): set<nat>
  {
    set i: nat | i < |rs| && rs[i].Err?
  }

  /** `responses.forEach(...)` with the two counters. */
  method GetResponseCount<R, E>(responses: seq<Settled<R, E>>) returns (counts: Counts)
    ensures counts.errorCount == ErrorCount(responses)
    ensures counts.successCount == SuccessCount(responses)
    ensures counts.successCount + counts.errorCount == |responses|
  {
    var successCount, errorCount := 0, 0;
    var i := 0;
    while i < |responses|
      invariant 0 <= i <= |responses|
      invariant errorCount == ErrorCount(responses[..i])
      invariant successCount == SuccessCount(responses[..i])
      invariant successCount + errorCount == i
    {
      assert responses[..i + 1][..i] == responses[..i];
      if responses[i].Err? {
        errorCount := errorCount + 1;
      } else {
        successCount := successCount + 1;
      }
      i := i + 1;
    }
    assert responses[..i] == responses;
    counts := Counts(successCount, errorCount);
  }

  /** Every element is exactly one of the two kinds. */
  lemma {:induction false} CountsPartition<R, E>(rs: seq<Settled<R, E>>)
    ensures SuccessCount(rs) + ErrorCount(rs) == |rs|
    decreases |rs|
  {
    if |rs| > 0 {
      CountsPartition(rs[..|rs| - 1]);
    }
  }

  /** `ErrorCount` is the number of positions holding an error. */
  lemma {:induction false} ErrorCountIsNumberOfErrors<R, E>(rs: seq<Settled<R, E>>)
    ensures ErrorCount(rs) == |ErrorPositions(rs)|
    decreases |rs|
  {
    if |rs| > 0 {
      var front := rs[..|rs| - 1];
      ErrorCountIsNumberOfErrors(front);
      var last: nat := |rs| - 1;
      assert forall i: nat :: i < |front| ==> front[i] == rs[i];
      if rs[last].Err? {
        assert ErrorPositions(rs) == ErrorPositions(front) + {last};
      } else {
        assert ErrorPositions(rs) == ErrorPositions(front);
      }
    }
  }

  /** Counting errors in a concatenation counts them in the parts: the error
      count of a batch is the sum of the error counts of its halves. */
  lemma {:induction false} ErrorCountAppend<R, E>(a: seq<Settled<R, E>>, b: seq<Settled<R, E>>)
    ensures ErrorCount(a + b) == ErrorCount(a) + ErrorCount(b)
    decreases |b|
  {
    if |b| > 0 {
      assert (a + b)[..|a + b| - 1] == a + b[..|b| - 1];
      ErrorCountAppend(a, b[..|b| - 1]);
    } else {
      assert a + b == a;
    }
  }

  /** `[responseA, new Error('x'), responseB]` counts two successes and one error. */
  lemma MixedBatchExample<R, E>(a: R, x: E, b: R)
    ensures ErrorCount([Ok(a), Err(x), Ok(b)]) == 1
    ensures SuccessCount([Ok(a), Err(x), Ok(b)]) == 2
  {
    var rs: seq<Settled<R, E>> := [Ok(a), Err(x), Ok(b)];
    assert rs[..2] == [Ok(a), Err(x)] && rs[..2][..1] == [Ok(a)] && rs[..2][..1][..0] == [];
    assert ErrorCount(rs[..2][..1]) == 0 && SuccessCount(rs[..2][..1]) == 1;
    assert ErrorCount(rs[..2]) == 1 && SuccessCount(rs[..2]) == 1;
  }
}
