/** What every transform returns: the new line array, or the reason the
    request was refused. The request layer maps each reason to the HTTP 400
    or 500 response the source sends; no transform writes anything on the
    error path. */
module Outcome {

  /** The refusals the handlers produce, one constructor per distinct check. */
  datatype Error =
    | MissingField        // a required body field is absent or empty
    | InvalidLineIndex    // a line index outside `0 .. lines.length - 1`
    | NotATodo            // the addressed line is not a checklist line
    | InvalidTaskFormat   // a checklist line without the space after `]`
    | ProjectNotFound     // no line trims to `### <project>`
    | ProjectExists       // add-project found `### <name>` already
    | WeekExists          // add-week found `## <title>` already
    | PoolNotFound        // no `## 待办池` header, or no separator after it
    | PoolEmpty           // settlement found no project in the pool
    | NothingToSettle     // settlement found nothing completed
    | InheritedName       // settlement grouped under a name every plain object already has, and threw

  datatype Result<T> = Ok(value: T) | Err(error: Error)

  datatype Option<T> = None | Some(value: T)
}
