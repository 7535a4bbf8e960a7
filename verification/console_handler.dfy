/**
 `ConsoleHandler::handle`: on the command line, the uncaught exception is
 rendered as one summary line, followed by the stack trace when both the
 handler's `canAddTrace` verdict and its `addTrace` setting allow it, and the
 handler chain stops.
 Elsewhere it does nothing. Whether PHP runs under the `cli` SAPI, and the
 handler's own `canAddTrace` verdict, are inputs.
 */
module ConsoleHandler {
  import opened Strings
  import opened TraceHandler
  import Exceptions

  /** What the handler tells the handler chain: go on, or stop. */
  datatype HandlerResult = Done | Quit

  /** The uncaught exception, as far as the summary line reads it. */
  datatype Thrown = Thrown(className: string, message: string, file: string, line: int)

  /** `"%s: %s in file %s on line %d"` for the exception. */
  function Summary(e: Thrown): string {
    e.className + ": " + e.message + " in file " + e.file + " on line " + IntToString(e.line)
  }

  /** `handle`: the result for the handler chain and the text echoed. */
  function Handle(isCli: bool, e: Thrown, canAddTrace: bool, o: Options, frames: seq<Frame>): (r: (HandlerResult, string))
    ensures !isCli ==> r == (Done, "")
    ensures isCli ==> r.0 == Quit
    ensures isCli ==> |r.1| > |Summary(e)| && r.1[..|Summary(e)|] == Summary(e) && r.1[|r.1| - 1] == '\n'
    ensures isCli && !(canAddTrace && o.addTrace) ==> r.1 == Summary(e) + "\n"
    ensures isCli && canAddTrace && o.addTrace ==>
              |r.1| >= |Summary(e)| + 14 && r.1[|Summary(e)|..|Summary(e)| + 13] == "\nStack trace:"
  {
    if !isCli then (Done, "")
    else
      var trace := if canAddTrace then GetTraceAsWritten(o, frames) else "";
      var response := Summary(e) + trace + "\n";
      assert response[..|Summary(e)|] == Summary(e);
      assert response[|Summary(e)|..|Summary(e)| + |trace|] == trace;
      (Quit, response)
  }

  /** The trace the handler prints is exactly the trace handler's text:
      between the summary and the final newline. */
  lemma HandleEmbedsTrace(e: Thrown, o: Options, frames: seq<Frame>)
    ensures var out := Handle(true, e, true, o, frames).1;
            var s := |Summary(e)|;
            s <= |out| - 1 && out[s..|out| - 1] == GetTraceAsWritten(o, frames)
  {
    var out := Handle(true, e, true, o, frames).1;
    var trace := GetTraceAsWritten(o, frames);
    assert out == Summary(e) + trace + "\n";
    assert out[|Summary(e)|..|out| - 1] == trace;
  }

  /** The class name `get_class` reports for a `CommandNotFound`. */
  const CommandNotFoundClass := "Indigo\\Console\\Exception\\CommandNotFound"

  /** A `CommandNotFound` opts out of the trace: when the handler's own
      `canAddTrace` verdict follows the exception's (it allows a trace only if
      the exception does), the report is the exception's summary line alone,
      whatever the settings and frames. This is the trace-free case of
      `Handle`, read for the exception that an unknown command raises. */
  lemma CommandNotFoundHasNoTrace(cnf: Exceptions.CommandNotFound, file: string, line: int, canAddTrace: bool, o: Options, frames: seq<Frame>)
    requires canAddTrace ==> Exceptions.CanAddTrace(cnf)
    ensures Handle(true, Thrown(CommandNotFoundClass, cnf.message, file, line), canAddTrace, o, frames)
            == (Quit, CommandNotFoundClass + ": " + cnf.message + " in file " + file + " on line " + IntToString(line) + "\n")
  {
  }

  /** Outside the command line the handler is silent and lets the chain go on,
      whatever the exception and settings. */
  lemma OutsideCliIsSilent(e: Thrown, canAddTrace: bool, o: Options, frames: seq<Frame>, e': Thrown, o': Options)
    ensures Handle(false, e, canAddTrace, o, frames) == Handle(false, e', canAddTrace, o', [])
  {
  }
}
