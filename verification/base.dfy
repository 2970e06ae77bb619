/** Support shared by the whole model: an optional value, and the scripted
    success/failure answers that stand in for the transport's collaborators
    (the WinHTTP calls the framing engine makes). */
module Base {

  datatype Option<+T> = None | Some(value: T)

  /** The answer a scripted collaborator gives to its `k`-th call of one kind:
      the call fails exactly when the script says so; calls past the end of
      the script succeed. */
  predicate Succeeds(script: seq<bool>, k: nat)
  {
    k >= |script| || script[k]
  }

  /** Index of the first failing call among calls `0 .. n-1`, or `n` when all
      of them succeed. */
  function FirstFailure(script: seq<bool>, n: nat): (r: nat)
    ensures r <= n
    ensures forall k :: 0 <= k < r ==> Succeeds(script, k)
    ensures r < n ==> !Succeeds(script, r)
  {
    FirstFailureFrom(script, 0, n)
  }

  function FirstFailureFrom(script: seq<bool>, from: nat, n: nat): (r: nat)
    requires from <= n
    requires forall k :: 0 <= k < from ==> Succeeds(script, k)
    ensures from <= r <= n
    ensures forall k :: 0 <= k < r ==> Succeeds(script, k)
    ensures r < n ==> !Succeeds(script, r)
    decreases n - from
  {
    if from == n || !Succeeds(script, from) then from
    else FirstFailureFrom(script, from + 1, n)
  }
}
