/** Values shared by every layer: optional values, results, and the errors the
    repositories and services throw. */
module Common {

  datatype Option<+T> = None | Some(value: T) {
    /** The value, or `default` when there is none. */
    function GetOr(default: T): T {
      match this
      case Some(v) => v
      case None => default
    }
  }

  /** The three tables of the store. */
  datatype Entity = EventEntity | LocationEntity | EventLocationEntity

  /** What an operation throws; each constructor stands for one message of the source. */
  datatype Error =
    | InvalidPaginationParameters        // "Invalid pagination parameters"
    | NotFound(entity: Entity, id: int)  // "<Entity> with ID <id> not found"
    | AlreadyExists(entity: Entity, name: string)  // "<Entity> with name: <name> already exists."
    | NoMatchingRow                      // the query builder's getOneOrFail finding no row

  /** A value, or the error an awaited promise rejects with. */
  datatype Result<+T> = Ok(value: T) | Err(error: Error)
}
