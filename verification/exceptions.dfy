/**
 `CommandNotFound`, the one error the router raises, and the `Outcome` of a
 router operation that may raise it.
 */
module Exceptions {
  import opened Nullable
  import opened Commands

  /** The error keeps the name that was asked for (null when none was given),
      the commands that were searched, and the exception message, which the
      constructor never sets. */
  datatype CommandNotFound = CommandNotFound(command: Option<string>, commands: Registry, message: string)

  /** `new CommandNotFound($command, $commands)`; the list defaults to `[]`. */
  function NewCommandNotFound(command: Option<string>, commands: Registry := []): (e: CommandNotFound)
    ensures e.command == command && e.commands == commands
    ensures e.message == ""
  {
    CommandNotFound(command, commands, "")
  }

  /** The error opts out of trace output, whatever it carries. */
  function CanAddTrace(e: CommandNotFound): (r: bool)
    ensures !r
  {
    false
  }

  /** Either a value, or the `CommandNotFound` that was thrown instead. */
  datatype Outcome<+T> = Ok(value: T) | NotFound(error: CommandNotFound)
}
