/** The command surface both programs share: one mode per invocation. */
module Commands {

  /** State of the watched directory at start-up. */
  datatype DirState = Missing | NotADirectory | IsDirectory

  /** BadDirectory is the "invalid directory" exit taken before any mode is chosen. */
  datatype Mode = BadDirectory | Help | Revert(base: string, partial: string) | List(base: string) | Usage | Monitor

  predicate Runnable(m: Mode) {
    m.Help? || m.Revert? || m.List? || m.Monitor?
  }

  /** The argument vector (program name first) that asks for a runnable mode. */
  function CommandLine(program: string, m: Mode): (args: seq<string>)
    requires Runnable(m)
    ensures |args| >= 1 && args[0] == program
  {
    match m
    case Help => [program, "--help"]
    case Revert(base, partial) => [program, "--revert", base, partial]
    case List(base) => [program, "--list", base]
    case Monitor => [program]
  }
}
