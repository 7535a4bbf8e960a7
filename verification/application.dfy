/**
 `Application`: the top-level router. It starts with the `help` and `list`
 commands and `list` as default, resolves the command to run from the
 parsed command line, runs it and turns its return value into an exit code.
 Argument parsing and console output belong to CLImate; the parsed result
 comes in as an `Input`.
 */
module Application {
  import opened Nullable
  import opened OrderedMaps
  import opened Commands
  import opened Exceptions
  import opened Router
  import Collection
  import Strings

  datatype App = App(
    name: Option<string>,
    version: Option<string>,
    handle: AppHandle,
    commands: Registry,
    defaultCommand: Option<string>,
    autoExit: bool)

  /** What CLImate parsed: the `--help` and `--version` flags, the `command`
      argument (null when absent), and the arguments the command receives. */
  datatype Input = Input(help: bool, version: bool, command: Option<string>, rest: seq<string>)

  /** Every key is its command's name, keys are unique, and the default
      command is registered. */
  predicate Valid(app: App) {
    KeysMatchNames(app.commands) && UniqueKeys(app.commands) && HasCommand(app.commands, app.defaultCommand)
  }

  /** `new Application($name, $version)`. */
  function New(handle: AppHandle, name: Option<string>, version: Option<string>): (app: App)
    ensures Keys(app.commands) == ["help", "list"]
    ensures Get(app.commands, "help") == Some(NewHelp(handle))
    ensures Get(app.commands, "list") == Some(NewLs(handle))
    ensures app.defaultCommand == Some("list")
    ensures app.autoExit
    ensures app.name == name && app.version == version && app.handle == handle
    ensures Valid(app)
  {
    var help, ls := NewHelp(handle), NewLs(handle);
    var commands := Router.AddCommands([], [help, ls]);
    assert commands == Router.AddCommand(Router.AddCommand([], help), ls) by {
      var once := Router.AddCommand([], help);
      assert [help, ls][1..] == [ls];
      assert commands == Router.AddCommands(once, [ls]);
      assert [ls][1..] == [];
      assert Router.AddCommands(once, [ls]) == Router.AddCommands(Router.AddCommand(once, ls), []);
    }
    App(name, version, handle, commands, Some(ListName), true)
  }

  /** `Application::addCommand`: keyed by name, overwriting silently; the
      default command and everything else stay as they were. */
  function AddCommand(app: App, c: Command): (app': App)
    ensures app'.commands == Router.AddCommand(app.commands, c)
    ensures app' == app.(commands := app'.commands)
    ensures Valid(app) ==> Valid(app')
  {
    var commands := Router.AddCommand(app.commands, c);
    assert Keys(app.commands) <= Keys(commands);
    app.(commands := commands)
  }

  /** `Application::addCommands`: `addCommand` on each element, in order. */
  function AddCommands(app: App, cs: seq<Command>): (app': App)
    ensures app'.commands == Router.AddCommands(app.commands, cs)
    ensures app' == app.(commands := app'.commands)
    ensures Valid(app) ==> Valid(app')
    decreases |cs|
  {
    if |cs| == 0 then app else AddCommands(AddCommand(app, cs[0]), cs[1..])
  }

  /** `Application::setDefaultCommand`: validates the name, then assigns it;
      on failure the application is untouched. */
  function SetDefaultCommand(app: App, name: Option<string>): (o: Outcome<App>)
    ensures o.Ok? <==> HasCommand(app.commands, name)
    ensures o.Ok? ==> o.value == app.(defaultCommand := name)
    ensures o.NotFound? ==> o.error == CommandNotFound(name, app.commands, "")
    ensures o.Ok? && Valid(app) ==> Valid(o.value)
  {
    match EnsureCommandExists(app.commands, name)
    case Some(e) => NotFound(e)
    case None => Ok(app.(defaultCommand := name))
  }

  /** A step of setting up an application. A failing `setDefaultCommand` is
      a thrown exception: the application keeps its previous state. */
  datatype Setup = Add(command: Command) | AddAll(commands: seq<Command>) | SetDefault(name: Option<string>)

  function Apply(app: App, step: Setup): App {
    match step
    case Add(c) => AddCommand(app, c)
    case AddAll(cs) => AddCommands(app, cs)
    case SetDefault(n) =>
      match SetDefaultCommand(app, n)
      case Ok(app') => app'
      case NotFound(_) => app
  }

  function ApplyAll(app: App, steps: seq<Setup>): App
    decreases |steps|
  {
    if |steps| == 0 then app else ApplyAll(Apply(app, steps[0]), steps[1..])
  }

  /** However an application is set up, its default command resolves and
      every command is registered under its own name. */
  lemma {:induction false} SetupKeepsValid(app: App, steps: seq<Setup>)
    requires Valid(app)
    ensures Valid(ApplyAll(app, steps))
    ensures HasCommand(ApplyAll(app, steps).commands, ApplyAll(app, steps).defaultCommand)
    decreases |steps|
  {
    if |steps| > 0 {
      SetupKeepsValid(Apply(app, steps[0]), steps[1..]);
    }
  }

  /** `$name` in `execute`: `help` when the help flag is set, otherwise the
      `command` argument, falling back to the default when that is PHP-empty. */
  predicate IsEmpty(name: Option<string>) {
    name.None? || !Strings.Truthy(name.value)
  }

  function CommandName(app: App, input: Input): (name: Option<string>)
    ensures input.help ==> name == Some("help")
    ensures !input.help && !IsEmpty(input.command) ==> name == input.command
    ensures !input.help && IsEmpty(input.command) ==> name == app.defaultCommand
  {
    var name := if input.help then Some(HelpName) else input.command;
    if IsEmpty(name) then app.defaultCommand else name
  }

  /** `Application::execute`: the version flag returns 0 without looking
      anything up; otherwise the resolved command runs on the remaining
      arguments and its return value is passed on. */
  function Execute(app: App, input: Input, run: Collection.Runner): (o: Outcome<ReturnValue>)
    ensures input.version ==> o == Ok(Numeric(0))
    ensures !input.version && !HasCommand(app.commands, CommandName(app, input)) ==>
              o == NotFound(CommandNotFound(CommandName(app, input), app.commands, ""))
    ensures !input.version && HasCommand(app.commands, CommandName(app, input)) ==>
              o == Collection.ExecuteCommand(Get(app.commands, KeyOf(CommandName(app, input))).value, input.rest, run)
  {
    if input.version then Ok(Numeric(0))
    else
      match GetCommand(app.commands, CommandName(app, input))
      case NotFound(e) => NotFound(e)
      case Ok(c) => Collection.ExecuteCommand(c, input.rest, run)
  }

  /** Without the version flag and without a usable command argument, a valid
      application always finds its default command. */
  lemma DefaultCommandResolves(app: App, input: Input)
    requires Valid(app)
    requires !input.help && IsEmpty(input.command)
    ensures GetCommand(app.commands, CommandName(app, input)).Ok?
    ensures CommandName(app, input) == app.defaultCommand
  {
  }

  /** `normalizeExitCode`: non-numeric values give 0; a value above 255 is
      cut to 255 only when validating; nothing is ever raised. */
  function NormalizeExitCode(v: ReturnValue, validate: bool): (code: int)
    ensures v.NonNumeric? ==> code == 0
    ensures v.Numeric? ==> code <= v.n
    ensures v.Numeric? && (!validate || v.n <= 255) ==> code == v.n
    ensures v.Numeric? && validate && v.n > 255 ==> code == 255
    ensures validate ==> code <= 255
  {
    var code := if v.Numeric? then v.n else 0;
    if validate && code > 255 then 255 else code
  }

  /** Normalizing an already normalized code changes nothing. */
  lemma NormalizeExitCodeIdempotent(v: ReturnValue, validate: bool)
    ensures NormalizeExitCode(Numeric(NormalizeExitCode(v, validate)), validate)
            == NormalizeExitCode(v, validate)
  {
  }

  /** The code `doExit` ends the process with (when `exits`) or returns. */
  datatype ExitStatus = ExitStatus(code: int, exits: bool)

  /** `doExit`: the code normalized with `validate = autoExit`; with
      `autoExit` the process ends with it. */
  function DoExit(app: App, v: ReturnValue): (s: ExitStatus)
    ensures s.exits == app.autoExit
    ensures s.code == NormalizeExitCode(v, app.autoExit)
    ensures s.exits ==> s.code <= 255
  {
    ExitStatus(NormalizeExitCode(v, app.autoExit), app.autoExit)
  }

  /** `run` after argument parsing: execute, then exit. */
  function Run(app: App, input: Input, run: Collection.Runner): (o: Outcome<ExitStatus>)
    ensures Execute(app, input, run).NotFound? ==> o == NotFound(Execute(app, input, run).error)
    ensures Execute(app, input, run).Ok? ==> o == Ok(DoExit(app, Execute(app, input, run).value))
  {
    match Execute(app, input, run)
    case NotFound(e) => NotFound(e)
    case Ok(v) => Ok(DoExit(app, v))
  }

  /** With `list` still the `Ls` command, running it exits with 0, whatever
      the arguments; so does the version flag. */
  lemma ListExitsWithZero(app: App, input: Input, run: Collection.Runner)
    requires Get(app.commands, "list").Some? && Get(app.commands, "list").value.kind.ListKind?
    requires input.version || CommandName(app, input) == Some("list")
    ensures Run(app, input, run) == Ok(ExitStatus(0, app.autoExit))
  {
  }

  /** A fresh application run with no arguments lists its commands and exits
      with 0. */
  lemma FreshApplicationLists(handle: AppHandle, run: Collection.Runner)
    ensures var app := New(handle, None, None);
            Execute(app, Input(false, false, None, []), run) == Ok(NonNumeric)
    ensures Run(New(handle, None, None), Input(false, false, None, []), run) == Ok(ExitStatus(0, true))
  {
  }

  /** Nested dispatch: when the command argument names a registered
      collection, and the first remaining argument names one of its custom
      sub-commands, that sub-command runs on the arguments after its name. */
  lemma NestedDispatch(app: App, db: Command, sub: Command, rest: seq<string>, run: Collection.Runner)
    requires !IsEmpty(Some(db.name))
    requires Get(app.commands, db.name) == Some(db) && db.kind.CollectionKind?
    requires Get(db.kind.commands, sub.name) == Some(sub) && sub.kind.Custom?
    ensures Execute(app, Input(false, false, Some(db.name), [sub.name] + rest), run) == Ok(run(sub, rest))
  {
    var args := [sub.name] + rest;
    var input := Input(false, false, Some(db.name), args);
    assert CommandName(app, input) == Some(db.name);
    assert GetCommand(app.commands, Some(db.name)) == Ok(db);
    assert Execute(app, input, run) == Collection.ExecuteCommand(db, args, run);
    assert Collection.Shift(args) == (Some(sub.name), rest);
    assert Collection.Execute(db, args, run) == Collection.ExecuteCommand(sub, rest, run);
  }

  /** `getLongVersion` as written: the guard tests the name twice and never
      the version, so a named application without a version still gets the
      version form, with an empty version. */
  function LongVersionAsWritten(name: Option<string>, version: Option<string>): (s: string)
    ensures name.None? ==> s == "<info>Console application</info>"
    ensures name.Some? ==> s == "<info>" + name.value + "</info> version <comment>" + version.GetOr("") + "</comment>"
  {
    if name.Some? && name.Some? then
      "<info>" + name.value + "</info> version <comment>" + version.GetOr("") + "</comment>"
    else "<info>Console application</info>"
  }

  /** `getLongVersion` as evidently intended: the version form only when both
      name and version are known. */
  function LongVersion(name: Option<string>, version: Option<string>): (s: string)
    ensures name.None? || version.None? <==> s == "<info>Console application</info>"
    ensures name.Some? && version.Some? ==>
              s == "<info>" + name.value + "</info> version <comment>" + version.value + "</comment>"
  {
    if name.Some? && version.Some? then
      "<info>" + name.value + "</info> version <comment>" + version.value + "</comment>"
    else "<info>Console application</info>"
  }

  /** The two disagree exactly when there is a name but no version. */
  lemma LongVersionDiscrepancy(name: Option<string>, version: Option<string>)
    ensures LongVersionAsWritten(name, version) != LongVersion(name, version)
            <==> name.Some? && version.None?
  {
    if name.Some? && version.None? {
      var s := LongVersionAsWritten(name, version);
      assert s[..6] == "<info>";
      assert s[6..6 + |name.value|] == name.value;
      assert |s| == |name.value| + 41;
      assert |LongVersion(name, version)| == 32;
    }
  }
}
