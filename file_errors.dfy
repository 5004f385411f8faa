/** The flat error taxonomy that every store operation returns (FileErrorCode). */
module FileErrors {
  datatype FileErrorCode =
    | OK
    | NotFound
    | OpenFailure
    | WriteFailure
    | ReadFailure
    | DeleteFailure
    | SeekFailure
}
