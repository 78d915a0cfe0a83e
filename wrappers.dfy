/** Option and Result values that stand for the null returns and the exceptions of the C# code. */
module Wrappers {

  datatype Option<T> = None | Some(value: T)
  {
    predicate IsSome() { this.Some? }

    function GetOr(default: T): T
    {
      match this
      case Some(v) => v
      case None => default
    }
  }

  /** An exception of the C# code becomes `Fail` with the name of the exception that would be thrown. */
  datatype Result<T> = Ok(value: T) | Fail(error: string)
  {
    predicate IsOk() { this.Ok? }
  }
}
