/** The small failure helpers both lineages share: `checkJson`,
    `checkNotNullJson`, `tryWrap`, `ignored` and the tokener's
    `syntaxError`. A thrown exception is a `Fail` of its kind; message text
    is not modelled. */
module Failures {
  import opened Base

  /** `checkJson(condition)`: fails with a JSException iff the condition is
      false. */
  function CheckJson(condition: bool): (r: Result<()>)
    ensures r.Ok? <==> condition
    ensures r.Fail? ==> r.error == JSE
  {
    if condition then Ok(()) else Fail(JSE)
  }

  /** `checkNotNullJson(value)`: the value itself when present, a JSException
      when it is null. */
  function CheckNotNull<T>(value: Option<T>): (r: Result<T>)
    ensures r.Ok? <==> value.Some?
    ensures r.Ok? ==> r.value == value.value
    ensures r.Fail? ==> r.error == JSE
  {
    match value
    case Some(x) => Ok(x)
    case None => Fail(JSE)
  }

  /** `tryWrap { block }`: the block's result, or its failure rethrown as the
      cause of a JSException. */
  function TryWrap<T>(block: Result<T>): (r: Result<T>)
    ensures block.Ok? ==> r == block
    ensures block.Fail? ==> r == Fail(JSException(Some(block.error)))
  {
    match block
    case Ok(x) => Ok(x)
    case Fail(e) => Fail(JSException(Some(e)))
  }

  /** `ignored { block }` around a block that returns early with a value:
      the value when the block produced one, nothing when it threw. */
  function Ignored<T>(block: Result<T>): (r: Option<T>)
    ensures r.Some? <==> block.Ok?
    ensures r.Some? ==> r.value == block.value
  {
    match block
    case Ok(x) => Some(x)
    case Fail(_) => None
  }

  /** `syntaxError(message)`: always a JSSyntaxException carrying the
      tokener's position (index, character, line). */
  function SyntaxError<T>(index: int, character: int, line: int): (r: Result<T>)
    ensures r.Fail? && r.error.Syntax?
    ensures r.error.at == Position(index, character, line)
  {
    Fail(Syntax(Position(index, character, line)))
  }
}
