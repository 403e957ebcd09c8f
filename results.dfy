/** Optional values and the exceptions repolist.rb raises, as values. */
module Results {

  datatype Option<T> = None | Some(value: T)

  /** The exceptions the core raises. */
  datatype Error =
    | InvalidDir(dir: string)         // ArgumentError from Repos.new: the path holds whitespace
    | AlreadyExists(message: string)  // "repos NAME exists", raised by save before any command
    | CommandFailed(output: string)   // RuntimeError from svn/svnadmin, carrying the command's output
    | InvalidDate(text: string)       // ArgumentError from DateTime.parse; Ruby's message is "invalid date",
                                      // the payload here is the parser's input, svnlook's stripped output

  datatype Result<T> = Ok(value: T) | Err(error: Error)
}
