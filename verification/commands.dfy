/**
 The `Command` contract and the `Basic` base class: a command has a name, a
 description and a back-reference to the application it belongs to. The
 concrete commands the core ships (`help`, `list`, collections) are kinds of
 one datatype; every other command is `Custom`, and what it does when run is
 supplied by whoever runs it.
 */
module Commands {
  import opened Nullable
  import opened OrderedMaps

  /** Identity of the `Application` object a command points back to. */
  datatype AppHandle = AppHandle(id: nat)

  datatype Kind =
    | Custom(tag: nat)
    | HelpKind
    | ListKind
    | CollectionKind(commands: seq<Entry<Command>>)

  datatype Command = Command(
    name: string,
    description: string,
    application: Option<AppHandle>,
    kind: Kind)

  /** What a command's `execute` returned, as far as the exit code cares:
      a numeric value (an int or numeric string) or anything else (null
      included). */
  datatype ReturnValue = Numeric(n: int) | NonNumeric

  /** The name-to-command array of the router (`$this->commands`). */
  type Registry = seq<Entry<Command>>

  const HelpName := "help"
  const HelpDescription := "Displays help for a command"
  const ListName := "list"
  const ListDescription := "Lists commands registered in application"
  const CollectionDescription := "Collection of commands"

  /** `new Command\Help($application)`. */
  function NewHelp(app: AppHandle): (c: Command)
    ensures c.name == "help" && c.description == "Displays help for a command"
    ensures c.application == Some(app) && c.kind.HelpKind?
  {
    Command(HelpName, HelpDescription, Some(app), HelpKind)
  }

  /** `new Command\Ls($application)`. */
  function NewLs(app: AppHandle): (c: Command)
    ensures c.name == "list" && c.description == "Lists commands registered in application"
    ensures c.application == Some(app) && c.kind.ListKind?
  {
    Command(ListName, ListDescription, Some(app), ListKind)
  }

  /** `new Collection($name, $description)`: no sub-commands, no application yet. */
  function NewCollection(name: string, description: string := CollectionDescription): (c: Command)
    ensures c.name == name && c.description == description
    ensures c.application.None?
    ensures c.kind == CollectionKind([])
  {
    Command(name, description, None, CollectionKind([]))
  }

  /** `Basic::setApplication`: replaces the back-reference, null included. */
  function SetApplication(c: Command, app: Option<AppHandle>): (r: Command)
    ensures r.application == app
    ensures r.name == c.name && r.description == c.description && r.kind == c.kind
  {
    c.(application := app)
  }
}
