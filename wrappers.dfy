/**
 * Failure-carrying values used in place of Go's (value, error) returns, and
 * the first-match search that both registries run over their entries.
 */
module Wrappers {

  datatype Option<+T> = None | Some(value: T)

  /** A Go `error` result that carries no value: nil, or an error with its message. */
  datatype Outcome = Ok | Err(message: string)

  /** A Go `(T, error)` pair in which exactly one of the two is meaningful. */
  datatype Result<+T> = Success(value: T) | Failure(error: string)

  /**
   * The index of the first entry whose repo, as `repoOf` reads it, is
   * `repo`, if any: the range loop with an early return that both registries
   * use to look an entry up.
   */
  function FirstWithRepo<T>(xs: seq<T>, repoOf: T -> string, repo: string): (r: Option<nat>)
    ensures r.Some? ==> r.value < |xs| && repoOf(xs[r.value]) == repo
    ensures r.Some? ==> forall j :: 0 <= j < r.value ==> repoOf(xs[j]) != repo
    ensures r.None? <==> forall j :: 0 <= j < |xs| ==> repoOf(xs[j]) != repo
  {
    if |xs| == 0 then None
    else if repoOf(xs[0]) == repo then Some(0)
    else
      match FirstWithRepo(xs[1..], repoOf, repo)
      case None => None
      case Some(k) => Some(k + 1)
  }
}
