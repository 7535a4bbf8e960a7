# Indigo Console core in Dafny

A functional model of the core of the Indigo Console PHP framework, with its
properties proved. The model covers three pieces:

- **The command registry and dispatch.** This is the `Router` trait, `Application`, the `Collection` command, the `Basic` command base, the `CommandNotFound` error and the `list` command (`Ls`).
  - Commands are kept in a name-keyed registry. Registering a name again overwrites the command in place, and a new name goes at the end, as with a PHP array.
  - `Application` starts with `help` and `list`, with `list` as the default. It picks the command from the parsed command line, runs it and turns its return value into an exit code.
  - A collection dispatches to one of its own sub-commands, using its first argument.
- **`AutoDetectName`.** A command without a name derives it from its class name. The segments after the namespace segment `Command` are each turned from CamelCase into snake_case and joined with `:`.
- **The console error handler.** This is `TraceHandler` and `ConsoleHandler`. On the command line, an uncaught exception is printed as one summary line and an optional numbered stack trace. Argument dumps in the trace are gated, size-limited and indented.

## How the model is built

The model uses immutable datatypes and pure functions. State changes return the new state.

- The registry is an ordered association list: `OrderedMaps`, with `Put` as PHP array assignment.
- PHP `null` is `Option.None`. A null name looks up the array key `""`.
- A thrown `CommandNotFound` is the `NotFound` case of an `Outcome`.
- Each regular-expression pass of `makeUnderscored` is modelled as a scan. Each scan is proved equal to an independent definition: "insert `_` before exactly these positions".

Modules:

| module | file | models |
|---|---|---|
| `Nullable` | nullable.dfy | PHP null |
| `Strings` | strings.dfy | `explode`, `implode`, `strtolower`, `sprintf('%d')`, `%3d` padding |
| `OrderedMaps` | ordered_maps.dfy | PHP arrays with string keys |
| `Commands` | commands.dfy | `Command`, `Basic`, `Help`, `Ls`, `Collection` construction |
| `Exceptions` | exceptions.dfy | `CommandNotFound` |
| `Router` | router.dfy | the `Router` trait |
| `Collection` | collection.dfy | `Collection::execute`, running any command |
| `Ls` | ls.dfy | the table `list` prints |
| `Application` | application.dfy | `Application` |
| `AutoDetectName` | auto_detect_name.dfy | the `AutoDetectName` trait |
| `TraceHandler` | trace_handler.dfy | `TraceHandler` |
| `ConsoleHandler` | console_handler.dfy | `ConsoleHandler::handle` |

## Model

| member | source | states |
|---|---|---|
| OrderedMaps.Put | src/Router.php:79 | assigning a key makes it map to the value and leaves every other key unchanged; an existing key keeps its position and a new key is appended; key uniqueness is preserved |
| OrderedMaps.Get | src/Router.php:47 | a lookup finds a value exactly when the key is present, and that value is stored under the key |
| Strings.ToLower | src/Command/AutoDetectName.php:64 | `strtolower` leaves no uppercase letter, shifts each uppercase letter to lowercase, and keeps every other character |
| Strings.Split | src/Command/AutoDetectName.php:36 | `explode` returns at least one piece, and no piece contains the separator |
| Strings.JoinSplit | src/Command/AutoDetectName.php:36 | imploding the pieces of an explode gives the text back |
| Strings.SplitJoin | src/Command/AutoDetectName.php:47 | exploding an implode of separator-free pieces gives the pieces back |
| Strings.ParseNatToString | lib/Whoops/Handler/TraceHandler.php:121 | the decimal digits `%d` writes read back as the number written |
| Strings.NatToStringNoLeadingZero | lib/Whoops/Handler/TraceHandler.php:121 | `%d` writes no leading zero: only 0 starts with the digit `0` |
| Strings.PadLeft | lib/Whoops/Handler/TraceHandler.php:121 | `%3d` right-aligns with spaces to at least three characters and ends with the digits |
| Commands.NewHelp | src/Command/Help.php:27-47 | the help command is named `help`, has its fixed description, and points back to its application |
| Commands.NewLs | src/Command/Ls.php:27-47 | the list command is named `list`, has its fixed description, and points back to its application |
| Commands.NewCollection | src/Command/Collection.php:27-31 | a new collection has the given name, a default description, no sub-commands and no application |
| Commands.SetApplication | src/Command/Basic.php:72-75 | only the application back-reference changes, and it may become null |
| Exceptions.NewCommandNotFound | src/Exception/CommandNotFound.php:42-48 | the error keeps the requested name and the searched commands; its message is empty |
| Exceptions.CanAddTrace | src/Exception/CommandNotFound.php:53-56 | the error never allows a trace |
| Router.HasCommand | src/Router.php:67-70 | true exactly when the name's array key is registered, with null meaning key "" |
| Router.EnsureCommandExists | src/Router.php:119-124 | throws exactly when the name is missing, and the error carries the name and the registry |
| Router.GetCommand | src/Router.php:43-48 | returns the registered command when the name is present; otherwise it is `CommandNotFound` with the name and all commands |
| Router.AddCommand | src/Router.php:77-80 | afterwards the command is found under its own name and other names are unaffected; the key order is kept or extended; the key-equals-name and uniqueness invariants survive |
| Router.AddCommandsSnoc | src/Router.php:87-92 | registering a list and then one more command is the same as registering the longer list |
| Router.AddCommandsLastWins | src/Router.php:87-92 | after `addCommands`, each name maps to the last command in the list bearing it; other names keep their old command |
| Router.AddCommandsKeepsOrder | src/Router.php:87-92 | `addCommands` never drops or reorders an existing name |
| Router.AddCommandsKeepsInvariant | src/Router.php:77-92 | `addCommands` preserves the key-equals-name and uniqueness invariants |
| Router.SetDefaultCommandAsWritten | src/Router.php:99-110 | as written: the default never changes, and the call throws unless key "" is registered; a command object is registered when "" is absent |
| Router.SetDefaultCommandAsWrittenAlwaysThrows | src/Router.php:99-110 | without a command named "", every call throws, even for a command the call itself registered |
| Router.SetDefaultCommand | src/Router.php:99-110 | intended version: on success, the default is the given name or the command's name, and it resolves; a failure changes nothing; a name succeeds exactly when registered; a name leaves the registry unchanged, and a command object is added only when its name is new |
| Router.SetDefaultCommandDiscrepancy | src/Router.php:99-110 | on an empty router given command `x`, the code as written throws and leaves the default unset; the intended version makes `x` the default |
| Collection.Shift | src/Command/Collection.php:38 | `array_shift`: no arguments gives null and an empty rest; otherwise the first argument followed by the rest is the input |
| Collection.Execute | src/Command/Collection.php:36-43 | an unknown first argument is `CommandNotFound` with that name and the collection's commands; a known one runs that sub-command on the remaining arguments and returns its result |
| Collection.ExecuteCommand | src/Command/Collection.php:36-43 | a custom command returns what it computes; `help` and `list` return nothing; a collection dispatches as `Collection.Execute` does |
| Ls.Rows | src/Command/Ls.php:54-62 | one row per registered command, in registry order: the key in `<info>` tags and the description |
| Ls.RowsAfterAddingNew | src/Command/Ls.php:57-62 | registering a new name appends exactly its row |
| Ls.RowsAfterOverwriting | src/Command/Ls.php:57-62 | re-registering a name replaces its row in place and keeps every other row |
| Application.New | src/Application.php:62-69 | a new application has exactly `help` then `list`, defaults to `list`, exits automatically, and satisfies the invariant |
| Application.AddCommand | src/Application.php:167-170 | only the registry changes, as in the router; the invariant is preserved |
| Application.AddCommands | src/Application.php:177-182 | only the registry changes, as in the router's `addCommands`; the invariant is preserved |
| Application.SetDefaultCommand | src/Application.php:189-194 | succeeds exactly when the name is registered and then changes only the default; otherwise the error carries the name and the commands |
| Application.SetupKeepsValid | src/Application.php:167-194 | under any sequence of add and set-default calls, every command stays keyed by its name and the default always resolves |
| Application.CommandName | src/Application.php:244-252 | the help flag selects `help`; otherwise the command argument is used, or the default when the argument is PHP-empty (null, "" or "0") |
| Application.Execute | src/Application.php:236-259 | the version flag returns 0; otherwise an unknown name throws `CommandNotFound`, and a known one runs the command on the remaining arguments |
| Application.DefaultCommandResolves | src/Application.php:250-254 | in a valid application, an empty command argument always reaches the registered default |
| Application.NormalizeExitCode | src/Application.php:339-349 | a non-numeric value gives 0; a value is kept unless validating and above 255, when it becomes 255; validated codes never exceed 255 |
| Application.NormalizeExitCodeIdempotent | src/Application.php:339-349 | normalizing twice is normalizing once |
| Application.DoExit | src/Application.php:320-329 | the code is normalized with validation exactly when the application exits, so an exit code never exceeds 255 |
| Application.Run | src/Application.php:213-227 | a `CommandNotFound` propagates; otherwise the return value becomes the exit status |
| Application.ListExitsWithZero | src/Application.php:224-226 | running `list`, or the version flag, ends with code 0 |
| Application.FreshApplicationLists | src/Application.php:62-69 | a fresh application run without arguments runs `list` and exits with 0 |
| Application.NestedDispatch | src/Application.php:244-258 | when the command argument names a registered collection and the next argument names one of its sub-commands, that sub-command runs on the arguments after its name and its result is returned |
| Application.LongVersionAsWritten | src/Application.php:96-106 | as written: any named application gets the version form, with an empty version if none is set |
| Application.LongVersion | src/Application.php:96-106 | intended version: the version form exactly when both name and version are set |
| Application.LongVersionDiscrepancy | src/Application.php:101 | the two versions differ exactly for a name without a version |
| AutoDetectName.MakeUnderscored | src/Command/AutoDetectName.php:62-65 | the result has no uppercase letters |
| AutoDetectName.CamelPassCorrect | src/Command/AutoDetectName.php:64 | the first regex pass inserts `_` exactly between a lowercase letter or digit and the uppercase letter after it |
| AutoDetectName.RunPassCorrect | src/Command/AutoDetectName.php:64 | the second regex pass inserts `_` exactly before the last letter of each run of two or more uppercase letters |
| AutoDetectName.MakeUnderscoredIdempotent | src/Command/AutoDetectName.php:62-65 | underscoring an underscored name changes nothing |
| AutoDetectName.MakeUnderscoredChars | src/Command/AutoDetectName.php:64 | underscoring adds only `_` and lowercase letters: any other character in the result was in the input |
| AutoDetectName.CapitalizedWord | src/Command/AutoDetectName.php:64 | a word with no uppercase letter after the first is only lowercased |
| AutoDetectName.CommandSegment | src/Command/AutoDetectName.php:39 | `array_search`: the first `Command` segment, or none exactly when there is no such segment |
| AutoDetectName.NameSegments | src/Command/AutoDetectName.php:36-39 | the segments after the first `Command`; without one, all but the first (false + 1 is 1) |
| AutoDetectName.DetectNameAsWritten | src/Command/AutoDetectName.php:12-47 | detection fails exactly when no segment is left, and then with the missing class `Indigo\Console\Command\LogicException`, since the unqualified name resolves in the file's namespace; a detected name is the intended one |
| AutoDetectName.DetectName | src/Command/AutoDetectName.php:36-47 | as intended: detection fails exactly when no segment is left, with a `LogicException` whose message names the class |
| AutoDetectName.DetectNameDiscrepancy | src/Command/AutoDetectName.php:12-43 | for the class `Foo` the code as written fails on the missing exception class, where the intended version reports `Detecting command name for Foo failed` |
| AutoDetectName.DetectedNameSplits | src/Command/AutoDetectName.php:46-47 | splitting a detected name on `:` gives back the underscored segments, one by one |
| AutoDetectName.GetName | src/Command/AutoDetectName.php:33-51 | a set name is returned unchanged; otherwise the detected name is stored and returned, and a failed detection stores nothing |
| AutoDetectName.GetNameCached | src/Command/AutoDetectName.php:35-50 | once a name is detected, later calls return it and change nothing |
| AutoDetectName.StubDetectsSubName | spec/Indigo/Console/Stub/Command/Sub/NameSpec.php:16-19 | the class `Indigo\Console\Stub\Command\Sub\Name` detects the name `sub:name` |
| TraceHandler.ShouldAddTrace | lib/Whoops/Handler/TraceHandler.php:60-63 | sets the trace flag to the argument cast to bool; other settings are unchanged |
| TraceHandler.ShouldAddFunctionArgs | lib/Whoops/Handler/TraceHandler.php:72-79 | an integer is kept as a frame bound, and anything else becomes a boolean; other settings are unchanged |
| TraceHandler.SetTraceFunctionArgsLimit | lib/Whoops/Handler/TraceHandler.php:88-91 | sets only the dump limit |
| TraceHandler.IgnoreTraceControl | lib/Whoops/Handler/TraceHandler.php:98-101 | sets only the trace-control flag, cast to bool |
| TraceHandler.PrefixLinesRoundTrip | lib/Whoops/Handler/TraceHandler.php:168-170 | the indented dump can be stripped back to the original dump: no text is lost or changed |
| TraceHandler.PrefixBodyNewlines | lib/Whoops/Handler/TraceHandler.php:169 | after the first line, every newline of the indented dump except a final one is followed by the prefix |
| TraceHandler.PrefixLines | lib/Whoops/Handler/TraceHandler.php:169 | `/^/m` puts the prefix at the start and after every newline but a final one; the dump's last character, a final newline included, stays last |
| TraceHandler.FinalNewlineUnprefixed | lib/Whoops/Handler/TraceHandler.php:169 | the dump `a` plus a newline becomes the prefix, `a` and the newline, with nothing after it |
| TraceHandler.FrameArgs | lib/Whoops/Handler/TraceHandler.php:152-171 | starts with a newline; a dump within the limit (equality included) has every line prefixed, ends in the dump's last character, and can be read back in full; a longer dump becomes the discard notice naming the limit |
| TraceHandler.OversizedDumpsLookAlike | lib/Whoops/Handler/TraceHandler.php:157-166 | any two dumps over the limit render identically |
| TraceHandler.FrameEntry | lib/Whoops/Handler/TraceHandler.php:118-136 | every trace entry starts on a new line, and is the frame's header followed by its argument text exactly when the gating wants the arguments, the header alone otherwise |
| TraceHandler.FrameNumberField | lib/Whoops/Handler/TraceHandler.php:121-130 | `%3d` right-aligns the frame number with spaces in at least three columns, exactly three below 1000; its digits have no leading zero and read back as the number |
| TraceHandler.FrameHeaderLayout | lib/Whoops/Handler/TraceHandler.php:120-135 | a trace line is a newline, the padded number, `. `, the class, `->` exactly when the class is truthy, then `function() file:line` |
| TraceHandler.GetTraceAsWritten | lib/Whoops/Handler/TraceHandler.php:108-143 | empty when the trace is off; otherwise `\nStack trace:` followed by one entry per frame, numbered from 1 |
| TraceHandler.GetTrace | lib/Whoops/Handler/TraceHandler.php:108-143 | the same under the documented argument gating |
| TraceHandler.TraceFrameByFrame | lib/Whoops/Handler/TraceHandler.php:114-139 | with the trace on, no frames give the header alone, and one more frame appends its entry with the next number |
| TraceHandler.EntriesAppend | lib/Whoops/Handler/TraceHandler.php:115-139 | the entries of two frame lists are the first list's entries, then the second's numbered on from there |
| TraceHandler.EntriesSnoc | lib/Whoops/Handler/TraceHandler.php:116-138 | one more frame adds exactly one entry at the end, with the next number |
| TraceHandler.TraceOffIsEmpty | lib/Whoops/Handler/TraceHandler.php:110-112 | after `shouldAddTrace(false)` or `shouldAddTrace(0)` the trace is empty, whatever the frames |
| TraceHandler.AsWrittenGating | lib/Whoops/Handler/TraceHandler.php:124 | as written, the default `false` dumps every frame, and an integer `n` dumps exactly the frames after the n-th |
| TraceHandler.GatingDiscrepancy | lib/Whoops/Handler/TraceHandler.php:124 | with default settings, the first entry as written carries the argument dump, and the documented gating leaves it out |
| TraceHandler.IntendedFalseDumpsNothing | lib/Whoops/Handler/TraceHandler.php:68-72 | under the documented gating, `false` leaves every entry as its header alone |
| ConsoleHandler.Handle | lib/Whoops/Handler/ConsoleHandler.php:41-66 | outside the CLI it returns DONE and prints nothing; under the CLI it returns QUIT and prints the summary line ending in a newline, with `\nStack trace:` after the summary exactly when the handler's `canAddTrace` verdict and its `addTrace` setting allow a trace |
| ConsoleHandler.HandleEmbedsTrace | lib/Whoops/Handler/ConsoleHandler.php:48-61 | the printed trace is exactly the trace handler's text, between the summary and the final newline |
| ConsoleHandler.CommandNotFoundHasNoTrace | lib/Whoops/Handler/ConsoleHandler.php:50-61 | when the handler follows the exception's verdict, a `CommandNotFound` prints only `Indigo\Console\Exception\CommandNotFound: <message> in file <file> on line <line>` and a newline |
| ConsoleHandler.OutsideCliIsSilent | lib/Whoops/Handler/ConsoleHandler.php:43-45 | outside the CLI the result does not depend on the exception, settings or frames |

## Left out

- CLImate argument parsing and console output: `run` gets the parsed flags and command argument as an `Input`. What `help` and `list` write is not modelled, beyond the table rows `list` hands to the console.
- Collection.Execute: gets the remaining positional arguments. In the source, `Application::execute` passes the whole CLImate object to `$command->execute`. A `Collection` registered directly with an `Application` declares an array parameter there. So in PHP that call fails with a type error, which the model does not show.
- `exit()` in `doExit` is the `exits` flag of the returned status.
- `echo` in `handle` is the returned string.
- `PHP_SAPI` is the `isCli` input.
- `setExceptionHandler`, `register` and `unregister`: process-wide handler registration is outside the model.
- The Whoops `Inspector` and `Frame` objects are inputs: the frame list, and each frame's class, function, file, line and `var_dump` text.
- The handler's own `canAddTrace` verdict is an input, because its code is in a parent class that is not part of this model. `ControlsTraceOutput` and `Internal` are declarations only.
- `ignoreTraceControl` is stored, but nothing in the modelled code reads it.
- `var_dump` output is an opaque string, and characters are bytes. The dump limit compares string length, which equals bytes for ASCII text.
- TraceHandler.ShouldAddTrace, TraceHandler.ShouldAddFunctionArgs, TraceHandler.IgnoreTraceControl: PHP truthiness of arbitrary values is reduced to an integer or a boolean.
- TraceHandler.SetTraceFunctionArgsLimit: takes an integer. The `(int)` cast of non-integers is not modelled.
- Collection.ExecuteCommand: a custom command's behaviour is a caller-supplied function, and exceptions raised by commands are not modelled. What `is_numeric`/`(int)` make of a return value is given as `Numeric(n)` or `NonNumeric`.
- PHP arrays turn numeric-string keys such as `"1"` into integer keys. The registry treats every name as a string key, which gives the same lookups.
- `Command\Call` and `Help::execute` (`$climate->usage()`) are console output only. `getName`, `getDescription` and `getApplication` are field reads, and `getCommands` returns the registry itself.
- The handler has no setting that includes the traces of internal exceptions.
- Registries hold commands by value. A change made to a command after it is registered is not seen through the registry: `$db->addCommand(...)` after `$app->addCommand($db)`, or a later `setApplication`. In PHP the registry holds the same object and sees such changes.
- ConsoleHandler.CommandNotFoundHasNoTrace: assumes that the handler's `canAddTrace` follows the exception's own verdict. That code is in a parent class outside this model, and `ignoreTraceControl` may make it override the exception.
- AutoDetectName.GetName: fails with the intended `LogicException` and its message, not with the class-not-found error the code as written raises. The code as written is `AutoDetectName.DetectNameAsWritten`, and the two agree whenever a name is detected.

## Findings

| source | as written | input that shows it | evidently intended | confidence | as-written member | corrected member |
|---|---|---|---|---|---|---|
| src/Application.php:101 | the guard tests `!is_null($name)` twice and never tests the version | name `app`, no version: the result is `<info>app</info> version <comment></comment>` | the version form only when a version is set, else `<info>Console application</info>` | high; not executed | Application.LongVersionDiscrepancy | Application.LongVersion |
| src/Router.php:99-110 | `setDefaultCommand` checks the undefined `$name` (null, so key "") and never assigns `defaultCommand` | an empty collection given a command named `x`: `x` is registered, then `CommandNotFound(null)` is thrown and no default is set | check and assign the resolved `$command` | high; not executed | Router.SetDefaultCommandDiscrepancy | Router.SetDefaultCommand |
| src/Command/AutoDetectName.php:43 | `throw new LogicException(...)` in a file with `namespace Indigo\Console\Command` and no `use` statement, so PHP looks for `Indigo\Console\Command\LogicException` | a class `Foo` using the trait: `getName()` raises a class-not-found error instead of the `LogicException` | throw the global `\LogicException` with the message `Detecting command name for Foo failed` | high; not executed | AutoDetectName.DetectNameDiscrepancy | AutoDetectName.DetectName |
| lib/Whoops/Handler/TraceHandler.php:124 | `$shouldAddFunctionArgs === true or $shouldAddFunctionArgs < $line`: `false < 1` is true in PHP, and an integer `n` selects the frames after the n-th | default settings: frame 1 gets its argument dump | `false` dumps none, `true` all, and `n` the first `n` frames, as the setter's doc comment says | medium; not executed | TraceHandler.GatingDiscrepancy | TraceHandler.GetTrace |

`ConsoleHandler.Handle` renders the trace with the gating as written (`TraceHandler.GetTraceAsWritten`), because that is what the handler prints. The documented gating is modelled next to it as `TraceHandler.GetTrace`, and `TraceHandler.IntendedFalseDumpsNothing` is proved about it.
