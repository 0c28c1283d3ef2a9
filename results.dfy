/** The failure the model keeps for the record pipeline, and the result and
    option types it is reported with. */
module Results {

  /** `hexString.match(/../g)` found no two-character match, so it returned
      null and the non-null-asserted `.map` on it throws a TypeError. */
  datatype Error = NoPairs

  datatype Result<+T> = Ok(value: T) | Err(error: Error) {
    predicate IsFailure() { Err? }

    function PropagateFailure<U>(): Result<U>
      requires Err?
    {
      Err(error)
    }

    function Extract(): T
      requires Ok?
    {
      value
    }
  }

  datatype Option<+T> = None | Some(value: T)
}
