/** Failure-compatible result type for the codec. Every exception the codec can
    raise (and that the compressor facade turns into an unsuccessful result)
    is one constructor of `Error`. */
module Outcomes {

  /** The failures of the codec, one per distinct cause. */
  datatype Error =
    | EndOfStream      // a BinaryReader read, BitReader.ReadBit or Decode ran out of bytes
    | DuplicateSymbol  // Dictionary.Add of a symbol already in the stored table
    | EmptyQueue       // PriorityQueue.Dequeue on an empty queue (zero-entry table)
    | NegativeLength   // BinaryReader.ReadBytes asked for a negative number of bytes
    | TooLong          // an array longer than the runtime allows

  datatype Result<+T> = Success(value: T) | Failure(error: Error) {

    predicate IsFailure() {
      Failure?
    }

    function PropagateFailure<U>(): Result<U>
      requires Failure?
    {
      Failure(error)
    }

    function Extract(): T
      requires Success?
    {
      value
    }
  }
}
