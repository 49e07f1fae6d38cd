/** Failure-carrying results and the error taxonomy of the sandboxed file layer. */
module Errors {

  datatype Option<+T> = None | Some(value: T)

  /** Codes of the storage errors Node's `fs` raises in the situations the model reaches. */
  datatype IoCode =
    | ENOENT   // a parent directory is missing
    | ENOTDIR  // a path component that must be a directory is a file
    | EISDIR   // a file operation was applied to a directory
    | EINVAL   // a directory would be moved into its own subtree
    | EEXIST   // `mkdir` on a path that is a file

  /** What an operation of `src/lib/fs.ts` can throw. */
  datatype Error =
    | AccessDenied          // safePath rejected the resolved path
    | FileNotFound          // readFile on a missing path
    | ItemNotFound          // deleteItem / renameItem on a missing source
    | ItemAlreadyExists     // createItem on an existing path
    | DestinationExists     // renameItem onto an existing path
    | InvalidArgType        // a non-string reached path.resolve or writeFileSync
    | InvalidArgValue       // a path holding a NUL character reached an fs call that validates it
    | IoError(code: IoCode) // any other failure of the storage primitives

  datatype Result<+T> = Ok(value: T) | Err(error: Error)

  datatype Outcome = Done | Failed(error: Error)

  /** The `message` of the thrown `Error`, as the HTTP layer forwards it. */
  function Message(e: Error): (m: string)
    ensures m != ""
  {
    match e
    case AccessDenied => "Access denied"
    case FileNotFound => "File not found"
    case ItemNotFound => "Item not found"
    case ItemAlreadyExists => "Item already exists"
    case DestinationExists => "Destination already exists"
    case InvalidArgType => "ERR_INVALID_ARG_TYPE"
    case InvalidArgValue => "ERR_INVALID_ARG_VALUE"
    case IoError(code) =>
      match code
      case ENOENT => "ENOENT"
      case ENOTDIR => "ENOTDIR"
      case EISDIR => "EISDIR"
      case EINVAL => "EINVAL"
      case EEXIST => "EEXIST"
  }
}
