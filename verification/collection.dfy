/**
 `Collection`: a command that owns a router of its own and runs one of its
 sub-commands, chosen by the first argument. Running any command is here
 too, since a collection's sub-command may be any command, another
 collection included.
 */
module Collection {
  import opened Nullable
  import opened OrderedMaps
  import opened Commands
  import opened Exceptions
  import opened Router

  /** How a `Custom` command runs: its return value for the given arguments. */
  type Runner = (Command, seq<string>) -> ReturnValue

  /** `array_shift($args)`: the first argument (null if there is none) and the rest. */
  function Shift(args: seq<string>): (r: (Option<string>, seq<string>))
    ensures |args| == 0 ==> r == (None, [])
    ensures |args| > 0 ==> r.0 == Some(args[0]) && [args[0]] + r.1 == args
  {
    if |args| == 0 then (None, []) else (Some(args[0]), args[1..])
  }

  /** `$command->execute($args, $output)` for any command. `help` and `list`
      return nothing; their output goes to the console; a collection
      dispatches to one of its sub-commands. */
  function ExecuteCommand(c: Command, args: seq<string>, run: Runner): (o: Outcome<ReturnValue>)
    ensures c.kind.Custom? ==> o == Ok(run(c, args))
    ensures c.kind.HelpKind? || c.kind.ListKind? ==> o == Ok(NonNumeric)
    ensures c.kind.CollectionKind? ==> o == Execute(c, args, run)
    decreases c, 1
  {
    match c.kind
    case Custom(_) => Ok(run(c, args))
    case HelpKind => Ok(NonNumeric)
    case ListKind => Ok(NonNumeric)
    case CollectionKind(_) => Execute(c, args, run)
  }

  /** `Collection::execute`: the first argument names a sub-command of this
      collection, which runs on the remaining arguments; its result is
      returned unchanged. There is no default sub-command: no argument means
      the null name, key "". */
  function Execute(c: Command, args: seq<string>, run: Runner): (o: Outcome<ReturnValue>)
    requires c.kind.CollectionKind?
    ensures var (name, rest) := Shift(args);
            !HasCommand(c.kind.commands, name) ==>
              o == NotFound(CommandNotFound(name, c.kind.commands, ""))
    ensures var (name, rest) := Shift(args);
            HasCommand(c.kind.commands, name) ==>
              o == ExecuteCommand(Get(c.kind.commands, KeyOf(name)).value, rest, run)
    decreases c, 0
  {
    var (name, rest) := Shift(args);
    var commands := c.kind.commands;
    match FindIndex(commands, KeyOf(name))
    case None => NotFound(NewCommandNotFound(name, commands))
    case Some(i) =>
      assert commands[i] in commands;
      ExecuteCommand(commands[i].value, rest, run)
  }
}
