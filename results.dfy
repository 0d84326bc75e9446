/** The exceptions the core throws, as values.  Each constructor names the
    .NET exception it stands for. */
module Results {

  datatype Error =
    | EndOfStream                 // IOException: no byte left to read
    | OutOfRange                  // ArgumentOutOfRangeException from a slice or an IndexOf start
    | UnknownTypeName(name: string) // ArgumentOutOfRangeException from ToObjectType(string)
    | UnsupportedPackType         // ArgumentException from ToObjectType(PackObjectType)
    | NotFound(hex: string)       // ArgumentException "Object ... not found."
    | EmptySequence               // InvalidOperationException: Aggregate without a seed on []

  datatype Result<T> = Ok(value: T) | Err(error: Error) {

    predicate IsFailure() {
      Err?
    }

    function PropagateFailure<U>(): Result<U>
      requires Err?
    {
      Err(error)
    }

    function Extract(): T
      requires Ok?
    {
      value
    }
  }
}
