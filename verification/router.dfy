/**
 The `Router` trait shared by `Application` and `Collection`: a registry of
 commands keyed by name, with lookup, registration and a default command.
 Names may be PHP null; an array lookup with a null key reads key "".
 */
module Router {
  import opened Nullable
  import opened OrderedMaps
  import opened Commands
  import opened Exceptions

  /** The array key PHP uses for a name: null becomes "". */
  function KeyOf(name: Option<string>): string {
    name.GetOr("")
  }

  /** Every entry is keyed by its command's own name, as `addCommand` keys it. */
  predicate KeysMatchNames(r: Registry) {
    forall i :: 0 <= i < |r| ==> r[i].key == r[i].value.name
  }

  /** `hasCommand`: a pure membership test. */
  function HasCommand(r: Registry, name: Option<string>): (b: bool)
    ensures b <==> KeyOf(name) in Keys(r)
  {
    Has(r, KeyOf(name))
  }

  /** `ensureCommandExists`: the error it throws, if any. */
  function EnsureCommandExists(r: Registry, name: Option<string>): (e: Option<CommandNotFound>)
    ensures e.None? <==> KeyOf(name) in Keys(r)
    ensures e.Some? ==> e.value.command == name && e.value.commands == r
  {
    if HasCommand(r, name) then None else Some(NewCommandNotFound(name, r))
  }

  /** `getCommand`: the command under the name, or `CommandNotFound` carrying
      the name and the whole registry. */
  function GetCommand(r: Registry, name: Option<string>): (o: Outcome<Command>)
    ensures o.Ok? <==> KeyOf(name) in Keys(r)
    ensures o.Ok? ==> Get(r, KeyOf(name)) == Some(o.value)
    ensures o.NotFound? ==> o.error == CommandNotFound(name, r, "")
  {
    match EnsureCommandExists(r, name)
    case Some(e) => NotFound(e)
    case None => Ok(Get(r, KeyOf(name)).value)
  }

  /** `addCommand`: keyed by the command's name, silently overwriting. */
  function AddCommand(r: Registry, c: Command): (r': Registry)
    ensures GetCommand(r', Some(c.name)) == Ok(c)
    ensures forall k :: k != c.name ==> Get(r', k) == Get(r, k)
    ensures c.name in Keys(r) ==> Keys(r') == Keys(r)
    ensures c.name !in Keys(r) ==> Keys(r') == Keys(r) + [c.name]
    ensures KeysMatchNames(r) ==> KeysMatchNames(r')
    ensures UniqueKeys(r) ==> UniqueKeys(r')
  {
    Put(r, c.name, c)
  }

  /** `addCommands`: `addCommand` on each element, in order. */
  function AddCommands(r: Registry, cs: seq<Command>): Registry
    decreases |cs|
  {
    if |cs| == 0 then r else AddCommands(AddCommand(r, cs[0]), cs[1..])
  }

  /** The last command in `cs` named `k`, if any: the reference meaning of
      "the later command wins". */
  function LastNamed(cs: seq<Command>, k: string): Option<Command> {
    if |cs| == 0 then None
    else if cs[|cs| - 1].name == k then Some(cs[|cs| - 1])
    else LastNamed(cs[..|cs| - 1], k)
  }

  /** Registering a list and then one more command is registering the longer list. */
  lemma {:induction false} AddCommandsSnoc(r: Registry, cs: seq<Command>, c: Command)
    ensures AddCommands(r, cs + [c]) == AddCommand(AddCommands(r, cs), c)
    decreases |cs|
  {
    if |cs| > 0 {
      assert (cs + [c])[1..] == cs[1..] + [c];
      AddCommandsSnoc(AddCommand(r, cs[0]), cs[1..], c);
    }
  }

  /** After `addCommands(cs)`, every name maps to the last command of `cs`
      bearing it, and names no element bears map to what they did before. */
  lemma {:induction false} AddCommandsLastWins(r: Registry, cs: seq<Command>, k: string)
    ensures LastNamed(cs, k).Some? ==> Get(AddCommands(r, cs), k) == LastNamed(cs, k)
    ensures LastNamed(cs, k).None? ==> Get(AddCommands(r, cs), k) == Get(r, k)
    decreases |cs|
  {
    if |cs| > 0 {
      var init, last := cs[..|cs| - 1], cs[|cs| - 1];
      assert cs == init + [last];
      var before := AddCommands(r, init);
      AddCommandsSnoc(r, init, last);
      assert AddCommands(r, cs) == AddCommand(before, last);
      AddCommandsLastWins(r, init, k);
      if last.name == k {
        assert LastNamed(cs, k) == Some(last);
        assert GetCommand(AddCommand(before, last), Some(k)) == Ok(last);
      } else {
        assert LastNamed(cs, k) == LastNamed(init, k);
        assert Get(AddCommand(before, last), k) == Get(before, k);
      }
    }
  }

  /** `addCommands` never removes a name nor moves one: the old keys stay a
      prefix of the new ones, in their old order. */
  lemma {:induction false} AddCommandsKeepsOrder(r: Registry, cs: seq<Command>)
    ensures Keys(r) <= Keys(AddCommands(r, cs))
    decreases |cs|
  {
    if |cs| > 0 {
      var r1 := AddCommand(r, cs[0]);
      AddCommandsKeepsOrder(r1, cs[1..]);
      assert Keys(r) <= Keys(r1);
    }
  }

  /** `addCommands` keeps the key-equals-name invariant and key uniqueness. */
  lemma {:induction false} AddCommandsKeepsInvariant(r: Registry, cs: seq<Command>)
    requires KeysMatchNames(r) && UniqueKeys(r)
    ensures KeysMatchNames(AddCommands(r, cs)) && UniqueKeys(AddCommands(r, cs))
    decreases |cs|
  {
    if |cs| > 0 {
      AddCommandsKeepsInvariant(AddCommand(r, cs[0]), cs[1..]);
    }
  }

  /** The router's state: its commands and the default command name. */
  datatype Routing = Routing(commands: Registry, defaultCommand: Option<string>)

  /** What `setDefaultCommand` was given: a name, or a command object. */
  datatype DefaultArg = ByName(name: Option<string>) | ByCommand(command: Command)

  /** The state after a call, and the exception it threw, if any. A command
      registered before the throw stays registered. */
  datatype Attempt = Attempt(state: Routing, thrown: Option<CommandNotFound>)

  /** `Router::setDefaultCommand` as written: both checks read an undefined
      `$name`, which is null, i.e. key "", and nothing is ever assigned to
      `defaultCommand`. */
  function SetDefaultCommandAsWritten(st: Routing, arg: DefaultArg): (a: Attempt)
    ensures a.state.defaultCommand == st.defaultCommand
    ensures a.thrown.None? <==> "" in Keys(a.state.commands)
    ensures a.thrown.Some? ==> a.thrown.value == CommandNotFound(None, a.state.commands, "")
    ensures arg.ByName? ==> a.state == st
    ensures arg.ByCommand? && "" !in Keys(st.commands) ==>
              a.state.commands == AddCommand(st.commands, arg.command)
    ensures arg.ByCommand? && "" in Keys(st.commands) ==> a.state == st
  {
    var undefinedName: Option<string> := None;
    var commands :=
      if arg.ByCommand? && !HasCommand(st.commands, undefinedName)
      then AddCommand(st.commands, arg.command)
      else st.commands;
    var st' := st.(commands := commands);
    Attempt(st', EnsureCommandExists(commands, undefinedName))
  }

  /** Unless a command is registered under "", the router's
      `setDefaultCommand` throws for every argument, even for a command it has
      just registered, and the default stays what it was. */
  lemma SetDefaultCommandAsWrittenAlwaysThrows(st: Routing, arg: DefaultArg)
    requires "" !in Keys(st.commands)
    requires arg.ByCommand? ==> arg.command.name != ""
    ensures SetDefaultCommandAsWritten(st, arg).thrown.Some?
    ensures SetDefaultCommandAsWritten(st, arg).state.defaultCommand == st.defaultCommand
  {
    if arg.ByCommand? {
      var r' := AddCommand(st.commands, arg.command);
      if arg.command.name !in Keys(st.commands) {
        assert Keys(r') == Keys(st.commands) + [arg.command.name];
      }
      assert "" !in Keys(r');
    }
  }

  /** The router's `setDefaultCommand` as evidently intended: register a
      command object if its name is new, then validate the resolved name and
      assign it. */
  function SetDefaultCommand(st: Routing, arg: DefaultArg): (a: Attempt)
    ensures a.thrown.None? ==> a.state.defaultCommand.Some? || arg.ByName?
    ensures a.thrown.None? ==> HasCommand(a.state.commands, a.state.defaultCommand)
    ensures a.thrown.None? ==> a.state.defaultCommand == match arg
                                                          case ByName(n) => n
                                                          case ByCommand(c) => Some(c.name)
    ensures a.thrown.Some? ==> a.state == st && arg.ByName?
    ensures arg.ByName? ==> (a.thrown.None? <==> HasCommand(st.commands, arg.name))
    ensures arg.ByName? ==> a.state.commands == st.commands
    ensures arg.ByCommand? && HasCommand(st.commands, Some(arg.command.name)) ==> a.state.commands == st.commands
    ensures arg.ByCommand? && !HasCommand(st.commands, Some(arg.command.name)) ==>
              a.state.commands == AddCommand(st.commands, arg.command)
  {
    match arg
    case ByName(n) =>
      (match EnsureCommandExists(st.commands, n)
       case Some(e) => Attempt(st, Some(e))
       case None => Attempt(st.(defaultCommand := n), None))
    case ByCommand(c) =>
      var commands := if HasCommand(st.commands, Some(c.name)) then st.commands else AddCommand(st.commands, c);
      assert HasCommand(commands, Some(c.name));
      Attempt(Routing(commands, Some(c.name)), None)
  }

  /** The discrepancy on one input: an empty router given the command `x`
      registers it but still throws and leaves the default unset, where the
      intended version makes `x` the default. */
  lemma SetDefaultCommandDiscrepancy(c: Command)
    requires c.name == "x"
    ensures SetDefaultCommandAsWritten(Routing([], None), ByCommand(c))
            == Attempt(Routing([Entry("x", c)], None), Some(CommandNotFound(None, [Entry("x", c)], "")))
    ensures SetDefaultCommand(Routing([], None), ByCommand(c))
            == Attempt(Routing([Entry("x", c)], Some("x")), None)
  {
    assert Put([], "x", c) == [Entry("x", c)];
  }
}
