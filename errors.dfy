/** The exceptions and failed assertions of the compile pipeline, and the
    failure-compatible wrappers that carry them. */
module Errors {

  /** One constructor per way the pipeline can stop. */
  datatype Error =
    | EmptyChar             // add_char("") raises
    | NotSingleChar         // add_char with more than one character fails its assertion
    | InvalidCharRange      // add_char_range with ord(start) >= ord(end)
    | WildcardWithChars     // set_wildcard on a class that already holds characters
    | CharNotInClass        // list.remove of an absent character (ValueError)
    | UnterminatedGroup     // "(" without ")"
    | EscapeAtEnd           // "\" as the last character
    | EmptyBracket          // "[" as the last character
    | InvalidBracketRange   // "-" after a range or at the end of input
    | UnterminatedBracket   // "[" without "]"
    | NothingToRepeat       // a quantifier with no element before it (IndexError)
    | DuplicateTransition   // add_transition with a key already present
    | DuplicateEpsilon      // add_epsilon_transition with a target already present
    | NoProgress            // an element that did not move the NFA cursor
    | RecursionLimit        // the DFA expansion recursed too deep

  datatype Option<T> = None | Some(value: T)

  datatype Result<T> = Ok(value: T) | Err(error: Error) {
    predicate IsFailure() { Err? }
    function PropagateFailure<U>(): Result<U> requires Err? { Err(error) }
    function Extract(): T requires Ok? { value }
  }

  /** The outcome of an operation that only changes state. */
  datatype Outcome = Pass | Fail(error: Error) {
    predicate IsFailure() { Fail? }
    function PropagateFailure(): Outcome requires Fail? { this }
  }

  /** An outcome together with what the operation left behind, as one
      result. */
  function AsResult<T>(o: Outcome, v: T): (r: Result<T>)
    ensures r.Ok? <==> o.Pass?
    ensures o.Fail? ==> r == Err(o.error)
    ensures o.Pass? ==> r == Ok(v)
  {
    if o.Pass? then Ok(v) else Err(o.error)
  }
}
