/** The outcome of building a math list from LaTeX (`MTMathListBuilder`).
    The grammar is not modelled: a parse is an input here, and only the
    error codes and the "nil on error" rule of `build` are. */
module BuildResults {
  import opened Foundation
  import opened MathLists

  /** `MTParseErrors`. */
  datatype ParseError = MismatchBraces | InvalidCommand | CharacterNotFound

  /** The error's code in the `MTParseError` domain, counting from 1. */
  function ErrorCode(e: ParseError): (c: int)
    ensures 1 <= c <= 3
  {
    match e
    case MismatchBraces => 1
    case InvalidCommand => 2
    case CharacterNotFound => 3
  }

  /** The error with code `c`, if any. */
  function ErrorOfCode(c: int): (r: Option<ParseError>)
    ensures r.Some? <==> 1 <= c <= 3
    ensures r.Some? ==> ErrorCode(r.value) == c
  {
    if c == 1 then Some(MismatchBraces)
    else if c == 2 then Some(InvalidCommand)
    else if c == 3 then Some(CharacterNotFound)
    else None
  }

  /** Distinct errors have distinct codes. */
  lemma ErrorCodeInjective(a: ParseError, b: ParseError)
    requires ErrorCode(a) == ErrorCode(b)
    ensures a == b
  {
  }

  /** The builder's state after `build`: the list it returns and the error
      it records. */
  datatype Built = Built(list: Option<MathList>, error: Option<ParseError>)

  /** `build`: the parsed list, or nil with the error recorded. */
  function Build(parse: Result<MathList, ParseError>): (b: Built)
    ensures b.list.None? <==> b.error.Some?
    ensures parse.Success? ==> b.list == Some(parse.value)
    ensures parse.Failure? ==> b.error == Some(parse.error)
  {
    match parse
    case Success(l) => Built(Some(l), None)
    case Failure(e) => Built(None, Some(e))
  }
}
