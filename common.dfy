/**
 * Shared value types: Java's nullable references as Option, and the kinds
 * of failure the two managers raise. Each Java exception class the managers
 * throw becomes one Error constructor; its message is the fixed text the
 * source passes to the exception (where the source appends an entity's
 * toString(), only the fixed part is kept).
 */
module Common {

  /** A Java reference or boxed value that may be null. */
  datatype Option<T> = None | Some(value: T)

  datatype Error =
    | IllegalArgument(msg: string)   // java.lang.IllegalArgumentException
    | Validation(msg: string)        // ValidationException
    | IllegalEntity(msg: string)     // IllegalEntityException
    | EntityNotFound(msg: string)    // EntityNotFoundException
    | ServiceFailure(msg: string)    // ServiceFailureException
    | IllegalState(msg: string)      // java.lang.IllegalStateException
    | NullPointer(msg: string)       // unboxing a null Long into a long parameter
    /** Whatever DBUtils.checkUpdatesCount throws for an affected-row count
        other than one; that class is not part of this model, so the kind is
        kept abstract and only the count is recorded. */
    | UpdatesCountRejected(count: int)

  /** The outcome of an operation that returns a value. */
  datatype Result<T> = Ok(value: T) | Err(error: Error)

  /** The outcome of a void operation. */
  datatype Outcome = Pass | Fail(error: Error)

  const NoDataSource := "DataSource is not set"
}
