/**
 The `TraceHandler` base of the console error handler: its settings, and the
 plain-text stack trace it renders from the frames of an exception. The frames
 come from the error-handling library and are inputs here; a frame's argument
 dump is the text `var_dump` would print, taken as given.
 */
module TraceHandler {
  import opened Nullable
  import opened Strings

  /** The text put in front of every line of an argument dump. */
  const VarDumpPrefix := "   | "

  /** `$shouldAddFunctionArgs`: a boolean, or an integer bound on frames. */
  datatype FunctionArgs = Flag(on: bool) | FirstFrames(n: int)

  /** A PHP value handed to a setter, as far as the setters look at it:
      an integer, or anything else with its truthiness. */
  datatype Value = IntValue(i: int) | OtherValue(truthy: bool)

  datatype Options = Options(
    addTrace: bool,
    functionArgs: FunctionArgs,
    argsLimit: int,
    ignoreTraceControl: bool)

  /** The property defaults: trace on, arguments off, a 1024-byte dump limit. */
  const Defaults := Options(true, Flag(false), 1024, false)

  /** PHP's `(bool)` cast. */
  function ToBool(v: Value): (b: bool)
    ensures v.IntValue? ==> (b <==> v.i != 0)
    ensures v.OtherValue? ==> b == v.truthy
  {
    match v
    case IntValue(i) => i != 0
    case OtherValue(t) => t
  }

  /** `shouldAddTrace($v = true)`. */
  function ShouldAddTrace(o: Options, v: Value := OtherValue(true)): (r: Options)
    ensures r.addTrace == ToBool(v)
    ensures r.functionArgs == o.functionArgs && r.argsLimit == o.argsLimit
    ensures r.ignoreTraceControl == o.ignoreTraceControl
  {
    o.(addTrace := ToBool(v))
  }

  /** `shouldAddFunctionArgs($v = true)`: an integer is kept as a frame bound,
      anything else is cast to a boolean. */
  function ShouldAddFunctionArgs(o: Options, v: Value := OtherValue(true)): (r: Options)
    ensures v.IntValue? ==> r.functionArgs == FirstFrames(v.i)
    ensures v.OtherValue? ==> r.functionArgs == Flag(v.truthy)
    ensures r.addTrace == o.addTrace && r.argsLimit == o.argsLimit
    ensures r.ignoreTraceControl == o.ignoreTraceControl
  {
    match v
    case IntValue(i) => o.(functionArgs := FirstFrames(i))
    case OtherValue(t) => o.(functionArgs := Flag(t))
  }

  /** `setTraceFunctionArgsLimit($limit)` for an integer argument. */
  function SetTraceFunctionArgsLimit(o: Options, limit: int): (r: Options)
    ensures r.argsLimit == limit
    ensures r.addTrace == o.addTrace && r.functionArgs == o.functionArgs
    ensures r.ignoreTraceControl == o.ignoreTraceControl
  {
    o.(argsLimit := limit)
  }

  /** `ignoreTraceControl($v = true)`. */
  function IgnoreTraceControl(o: Options, v: Value := OtherValue(true)): (r: Options)
    ensures r.ignoreTraceControl == ToBool(v)
    ensures r.addTrace == o.addTrace && r.functionArgs == o.functionArgs
    ensures r.argsLimit == o.argsLimit
  {
    o.(ignoreTraceControl := ToBool(v))
  }

  /** One stack frame: class (null is ""), function, file, line, and the
      `var_dump` text of its arguments. */
  datatype Frame = Frame(className: string, functionName: string, file: string, line: int, argsDump: string)

  // ---------------------------------------------------------------------
  // The multi-line prefix: preg_replace('/^/m', prefix, dump)
  // ---------------------------------------------------------------------

  /** `s` with the prefix after every newline that does not end it: in
      multi-line mode `^` matches after internal newlines only. */
  function PrefixBody(s: string): (r: string)
    ensures |r| >= |s|
    ensures |s| > 0 ==> r[0] == s[0]
  {
    if |s| == 0 then ""
    else if s[0] == '\n' && |s| > 1 then "\n" + VarDumpPrefix + PrefixBody(s[1..])
    else [s[0]] + PrefixBody(s[1..])
  }

  /** The body keeps the dump's last character: no prefix follows a final newline. */
  lemma {:induction false} PrefixBodyLast(s: string)
    ensures |s| > 0 ==> PrefixBody(s)[|PrefixBody(s)| - 1] == s[|s| - 1]
    decreases |s|
  {
    if |s| > 1 {
      PrefixBodyLast(s[1..]);
    }
  }

  predicate StartsWithPrefix(t: string) {
    |t| >= |VarDumpPrefix| && t[..|VarDumpPrefix|] == VarDumpPrefix
  }

  /** Every newline of `t` but a final one is followed by the prefix. */
  predicate NewlinesPrefixed(t: string) {
    forall i :: 0 <= i < |t| - 1 && t[i] == '\n' ==> StartsWithPrefix(t[i + 1..])
  }

  /** The text starts with the prefix and every later line does too. */
  predicate LinesPrefixed(t: string) {
    StartsWithPrefix(t) && NewlinesPrefixed(t)
  }

  lemma {:induction false} PrefixBodyNewlines(s: string)
    ensures NewlinesPrefixed(PrefixBody(s))
    decreases |s|
  {
    if |s| > 0 {
      var rest := PrefixBody(s[1..]);
      PrefixBodyNewlines(s[1..]);
      var r := PrefixBody(s);
      if s[0] == '\n' && |s| > 1 {
        assert r == "\n" + VarDumpPrefix + rest;
        forall i | 0 <= i < |r| - 1 && r[i] == '\n'
          ensures StartsWithPrefix(r[i + 1..])
        {
          if i == 0 {
            assert r[1..][..|VarDumpPrefix|] == VarDumpPrefix;
          } else {
            assert i > |VarDumpPrefix|;
            var j := i - 1 - |VarDumpPrefix|;
            assert r[i] == rest[j];
            assert r[i + 1..] == rest[j + 1..];
          }
        }
      } else {
        assert r == [s[0]] + rest;
        if s[0] == '\n' {
          assert s[1..] == "";
          assert |r| == 1;
        }
        forall i | 0 < i < |r| - 1 && r[i] == '\n'
          ensures StartsWithPrefix(r[i + 1..])
        {
          assert r[i] == rest[i - 1];
          assert r[i + 1..] == rest[i..];
        }
      }
    }
  }

  /** Every line of the dump, the first one included, gets the prefix: in
      multi-line mode `^` matches at the start and after every newline but
      a final one, so a dump ending in a newline still ends in it. */
  function PrefixLines(s: string): (r: string)
    ensures |r| >= |s| + |VarDumpPrefix|
    ensures LinesPrefixed(r)
    ensures |s| > 0 ==> r[|r| - 1] == s[|s| - 1]
  {
    PrefixBodyNewlines(s);
    PrefixedBody(PrefixBody(s));
    PrefixBodyLast(s);
    VarDumpPrefix + PrefixBody(s)
  }

  /** Putting the prefix before a body whose later lines are prefixed
      prefixes every line. */
  lemma PrefixedBody(b: string)
    requires NewlinesPrefixed(b)
    ensures LinesPrefixed(VarDumpPrefix + b)
  {
    var r := VarDumpPrefix + b;
    assert r[..|VarDumpPrefix|] == VarDumpPrefix;
    assert forall k :: 0 <= k < |VarDumpPrefix| ==> r[k] == VarDumpPrefix[k] != '\n';
    forall i | 0 <= i < |r| - 1 && r[i] == '\n'
      ensures StartsWithPrefix(r[i + 1..])
    {
      assert i >= |VarDumpPrefix|;
      var j := i - |VarDumpPrefix|;
      assert r[i] == b[j];
      assert r[i + 1..] == b[j + 1..];
    }
  }

  /** A dump that ends in a newline: the prefix goes before its one line
      and not after the final newline. */
  lemma FinalNewlineUnprefixed()
    ensures PrefixLines("a\n") == "   | a\n"
  {
    assert PrefixBody("\n") == "\n";
    assert PrefixBody("a\n") == "a\n";
  }

  /** Removes the prefix after every newline that has one and more text after it. */
  function UnprefixBody(t: string): string
  {
    if |t| == 0 then ""
    else if t[0] == '\n' && |t| > 1 && StartsWithPrefix(t[1..]) then "\n" + UnprefixBody(t[1 + |VarDumpPrefix|..])
    else [t[0]] + UnprefixBody(t[1..])
  }

  /** Reading an indented dump back: the inverse of `PrefixLines`. */
  function StripPrefixes(t: string): (r: Option<string>)
    ensures r.Some? <==> StartsWithPrefix(t)
  {
    if StartsWithPrefix(t) then Some(UnprefixBody(t[|VarDumpPrefix|..])) else None
  }

  lemma {:induction false} UnprefixPrefixBody(s: string)
    ensures UnprefixBody(PrefixBody(s)) == s
    decreases |s|
  {
    if |s| > 0 {
      var rest := PrefixBody(s[1..]);
      UnprefixPrefixBody(s[1..]);
      if s[0] == '\n' && |s| > 1 {
        var t := "\n" + VarDumpPrefix + rest;
        assert t[1..] == VarDumpPrefix + rest;
        assert StartsWithPrefix(t[1..]);
        assert t[1 + |VarDumpPrefix|..] == rest;
        assert s == "\n" + s[1..];
      } else {
        var t := [s[0]] + rest;
        assert t[1..] == rest;
        if s[0] == '\n' {
          assert |s| == 1 && |rest| == 0;
        }
        assert s == [s[0]] + s[1..];
      }
    }
  }

  /** The indentation loses nothing: stripping it gives the dump back. */
  lemma PrefixLinesRoundTrip(s: string)
    ensures StripPrefixes(PrefixLines(s)) == Some(s)
  {
    var t := PrefixLines(s);
    assert t[|VarDumpPrefix|..] == PrefixBody(s);
    UnprefixPrefixBody(s);
  }

  // ---------------------------------------------------------------------
  // getFrameArgs and getTrace
  // ---------------------------------------------------------------------

  /** The notice that replaces a dump longer than the limit. */
  function DiscardNotice(limit: int): string {
    "\n" + VarDumpPrefix + "Arguments dump length greater than " + IntToString(limit) + " Bytes. Discarded."
  }

  /** `getFrameArgs`: the indented dump on a new line when it is at most
      `argsLimit` bytes long, the discard notice otherwise. */
  function FrameArgs(o: Options, f: Frame): (r: string)
    ensures |r| >= 1 && r[0] == '\n'
    ensures |f.argsDump| <= o.argsLimit ==> LinesPrefixed(r[1..]) && StripPrefixes(r[1..]) == Some(f.argsDump)
    ensures |f.argsDump| <= o.argsLimit && |f.argsDump| > 0 ==> r[|r| - 1] == f.argsDump[|f.argsDump| - 1]
    ensures |f.argsDump| > o.argsLimit ==> r == DiscardNotice(o.argsLimit)
  {
    if |f.argsDump| > o.argsLimit then DiscardNotice(o.argsLimit)
    else
      var r := "\n" + PrefixLines(f.argsDump);
      assert r[1..] == PrefixLines(f.argsDump);
      PrefixLinesRoundTrip(f.argsDump);
      r
  }

  /** A dump over the limit is dropped whole: which dump it was does not show. */
  lemma OversizedDumpsLookAlike(o: Options, f: Frame, dump: string)
    requires |f.argsDump| > o.argsLimit && |dump| > o.argsLimit
    ensures FrameArgs(o, f) == FrameArgs(o, f.(argsDump := dump))
  {
  }

  /** Which version of the argument gating is meant. */
  datatype Gating = AsWritten | Intended

  /** `$shouldAddFunctionArgs === true or $shouldAddFunctionArgs < $line` as
      PHP evaluates it: `false < $line` compares booleans, so it holds for
      every line number but 0; an integer `n` admits the frames after the
      n-th. */
  function WantsArgsAsWritten(fa: FunctionArgs, line: int): bool {
    match fa
    case Flag(b) => b || line != 0
    case FirstFrames(n) => n < line
  }

  /** The gating the setter's documentation describes: `true` for every
      frame, `false` for none, an integer `n` for the first `n` frames. */
  function WantsArgsIntended(fa: FunctionArgs, line: int): bool {
    match fa
    case Flag(b) => b
    case FirstFrames(n) => line <= n
  }

  function WantsArgs(g: Gating, fa: FunctionArgs, line: int): bool {
    match g
    case AsWritten => WantsArgsAsWritten(fa, line)
    case Intended => WantsArgsIntended(fa, line)
  }

  /** The header of one trace line: `"\n%3d. "` and the call. A truthy class
      is followed by `->`; a falsy one (`""` or `"0"`) is still printed. */
  function FrameHeader(n: nat, f: Frame): string {
    "\n" + PadLeft(NatToString(n), 3) + ". " + f.className + Arrow(f) + CallText(f)
  }

  function Arrow(f: Frame): string {
    if Truthy(f.className) then "->" else ""
  }

  /** `%s() %s:%d`: the function, the file and the line. */
  function CallText(f: Frame): string {
    f.functionName + "() " + f.file + ":" + IntToString(f.line)
  }

  /** One trace line for the `n`-th frame, with its arguments when wanted. */
  function FrameEntry(o: Options, g: Gating, n: nat, f: Frame): (r: string)
    ensures |r| > 0 && r[0] == '\n'
    ensures WantsArgs(g, o.functionArgs, n) ==> r == FrameHeader(n, f) + FrameArgs(o, f)
    ensures !WantsArgs(g, o.functionArgs, n) ==> r == FrameHeader(n, f)
  {
    FrameHeader(n, f) + (if WantsArgs(g, o.functionArgs, n) then FrameArgs(o, f) else "")
  }

  /** The `%3d` field of a trace line: right-aligned in at least three
      columns, exactly three below 1000, and its digits read back as `n`. */
  lemma FrameNumberField(n: nat)
    ensures var d, digits := PadLeft(NatToString(n), 3), NatToString(n);
            && |d| >= 3
            && (n < 1000 ==> |d| == 3)
            && (forall i :: 0 <= i < |d| - |digits| ==> d[i] == ' ')
            && d[|d| - |digits|..] == digits
            && (n > 0 ==> digits[0] != '0')
            && ParseNat(digits) == n
  {
    ParseNatToString(n);
    NatToStringNoLeadingZero(n);
    if n < 1000 {
      NatToStringShort(n);
    }
  }

  lemma NatToStringShort(n: nat)
    requires n < 1000
    ensures |NatToString(n)| <= 3
  {
    if n >= 10 {
      assert NatToString(n) == NatToString(n / 10) + [DigitChar(n % 10)];
      if n / 10 >= 10 {
        assert NatToString(n / 10) == NatToString(n / 10 / 10) + [DigitChar(n / 10 % 10)];
      }
    }
  }

  /** Where the pieces of a trace line's header sit in it. */
  lemma {:induction false} HeaderPieces(h: string, d: string, cls: string, arrow: string, call: string)
    requires h == "\n" + d + ". " + cls + arrow + call
    ensures |h| >= 3 + |d| + |cls|
    ensures h[0] == '\n'
    ensures h[1..1 + |d|] == d
    ensures h[1 + |d|..3 + |d|] == ". "
    ensures h[3 + |d|..3 + |d| + |cls|] == cls
    ensures h[3 + |d| + |cls|..] == arrow + call
  {
    var k := 3 + |d| + |cls|;
    assert h == ("\n" + d + ". " + cls) + (arrow + call);
    assert h[k..] == arrow + call;
    var front := h[..k];
    assert front == "\n" + d + ". " + cls;
    assert h[1..1 + |d|] == front[1..1 + |d|];
    assert h[1 + |d|..3 + |d|] == front[1 + |d|..3 + |d|];
    assert h[3 + |d|..k] == front[3 + |d|..k];
  }

  /** The fields of a trace line in order: newline, number, `. `, the class,
      `->` exactly when the class is truthy, then `function() file:line`. */
  lemma FrameHeaderLayout(n: nat, f: Frame)
    ensures var h, d := FrameHeader(n, f), PadLeft(NatToString(n), 3);
            var k := 3 + |d| + |f.className|;
            && |h| >= k
            && h[0] == '\n'
            && h[1..1 + |d|] == d
            && h[1 + |d|..3 + |d|] == ". "
            && h[3 + |d|..k] == f.className
            && (Truthy(f.className) ==> h[k..] == "->" + CallText(f))
            && (!Truthy(f.className) ==> h[k..] == CallText(f))
  {
    HeaderPieces(FrameHeader(n, f), PadLeft(NatToString(n), 3), f.className, Arrow(f), CallText(f));
  }

  /** `render(k, frame)` for each frame, `k` counting up from `n`. */
  function Numbered(render: (nat, Frame) -> string, frames: seq<Frame>, n: nat): (lines: seq<string>)
    ensures |lines| == |frames|
    ensures forall i :: 0 <= i < |frames| ==> lines[i] == render(n + i, frames[i])
  {
    seq(|frames|, i requires 0 <= i < |frames| => render(n + i, frames[i]))
  }

  /** Numbering a split list numbers the second part on from the first. */
  lemma NumberedAppend(render: (nat, Frame) -> string, a: seq<Frame>, b: seq<Frame>, n: nat)
    ensures Numbered(render, a + b, n) == Numbered(render, a, n) + Numbered(render, b, n + |a|)
  {
    var whole, left, right := Numbered(render, a + b, n), Numbered(render, a, n), Numbered(render, b, n + |a|);
    forall i | 0 <= i < |whole|
      ensures whole[i] == (left + right)[i]
    {
      if i >= |a| {
        assert (a + b)[i] == b[i - |a|];
        assert n + |a| + (i - |a|) == n + i;
      }
    }
  }

  /** Renders the `k`-th trace line. */
  function Renderer(o: Options, g: Gating): (nat, Frame) -> string {
    (k: nat, f: Frame) => FrameEntry(o, g, k, f)
  }

  /** The lines written one after the other. */
  function Concat(lines: seq<string>): string
    decreases |lines|
  {
    if |lines| == 0 then "" else lines[0] + Concat(lines[1..])
  }

  lemma {:induction false} ConcatAppend(x: seq<string>, y: seq<string>)
    ensures Concat(x + y) == Concat(x) + Concat(y)
    decreases |x|
  {
    if |x| > 0 {
      assert (x + y)[1..] == x[1..] + y;
      ConcatAppend(x[1..], y);
    } else {
      assert x + y == y;
    }
  }

  /** The text of the trace lines of `frames`, numbered from `n`. */
  function Entries(o: Options, g: Gating, frames: seq<Frame>, n: nat): string {
    Concat(Numbered(Renderer(o, g), frames, n))
  }

  function TraceWith(o: Options, g: Gating, frames: seq<Frame>): (r: string)
    ensures !o.addTrace ==> r == ""
    ensures o.addTrace ==> |r| >= 13 && r[..13] == "\nStack trace:"
    ensures o.addTrace ==> r == "\nStack trace:" + Concat(Numbered(Renderer(o, g), frames, 1))
  {
    if o.addTrace then "\nStack trace:" + Entries(o, g, frames, 1) else ""
  }

  /** `getTrace` as written. */
  function GetTraceAsWritten(o: Options, frames: seq<Frame>): (r: string)
    ensures !o.addTrace ==> r == ""
    ensures o.addTrace ==> |r| >= 13 && r[..13] == "\nStack trace:"
    ensures o.addTrace ==> r == "\nStack trace:" + Concat(Numbered(Renderer(o, AsWritten), frames, 1))
  {
    TraceWith(o, AsWritten, frames)
  }

  /** `getTrace` with the documented argument gating. */
  function GetTrace(o: Options, frames: seq<Frame>): (r: string)
    ensures !o.addTrace ==> r == ""
    ensures o.addTrace ==> |r| >= 13 && r[..13] == "\nStack trace:"
    ensures o.addTrace ==> r == "\nStack trace:" + Concat(Numbered(Renderer(o, Intended), frames, 1))
  {
    TraceWith(o, Intended, frames)
  }

  /** The trace of a split frame list is the trace of its first part followed
      by the second part numbered on from where the first stopped. */
  lemma EntriesAppend(o: Options, g: Gating, a: seq<Frame>, b: seq<Frame>, n: nat)
    ensures Entries(o, g, a + b, n) == Entries(o, g, a, n) + Entries(o, g, b, n + |a|)
  {
    var render := Renderer(o, g);
    NumberedAppend(render, a, b, n);
    ConcatAppend(Numbered(render, a, n), Numbered(render, b, n + |a|));
  }

  /** One more frame adds one more numbered line at the end. */
  lemma EntriesSnoc(o: Options, g: Gating, frames: seq<Frame>, f: Frame, n: nat)
    ensures Entries(o, g, frames + [f], n) == Entries(o, g, frames, n) + FrameEntry(o, g, n + |frames|, f)
  {
    EntriesAppend(o, g, frames, [f], n);
    SingleLine(Renderer(o, g), f, n + |frames|);
  }

  /** A single frame renders as its one line. */
  lemma SingleLine(render: (nat, Frame) -> string, f: Frame, k: nat)
    ensures Concat(Numbered(render, [f], k)) == render(k, f)
  {
    var one := Numbered(render, [f], k);
    assert one[0] == render(k, f);
    assert Concat(one) == one[0] + Concat([]);
  }

  /** The trace frame by frame: with no frames it is the header alone, and
      each further frame adds its own entry, numbered one past the frames
      before it. */
  lemma TraceFrameByFrame(o: Options, g: Gating, frames: seq<Frame>, f: Frame)
    requires o.addTrace
    ensures TraceWith(o, g, []) == "\nStack trace:"
    ensures TraceWith(o, g, frames + [f]) == TraceWith(o, g, frames) + FrameEntry(o, g, |frames| + 1, f)
  {
    assert Numbered(Renderer(o, g), [], 1) == [];
    EntriesSnoc(o, g, frames, f, 1);
  }

  /** Turning the trace off empties it, whatever the frames. */
  lemma TraceOffIsEmpty(o: Options, frames: seq<Frame>)
    ensures GetTrace(ShouldAddTrace(o, OtherValue(false)), frames) == ""
    ensures GetTraceAsWritten(ShouldAddTrace(o, IntValue(0)), frames) == ""
  {
  }

  /** As written, the default `false` setting dumps the arguments of every
      frame, and an integer `n` dumps those after the n-th frame. */
  lemma AsWrittenGating(n: int, line: nat)
    requires line >= 1
    ensures WantsArgsAsWritten(Defaults.functionArgs, line)
    ensures WantsArgsAsWritten(FirstFrames(n), line) <==> line > n
    ensures WantsArgsIntended(FirstFrames(n), line) <==> !WantsArgsAsWritten(FirstFrames(n), line)
  {
  }

  /** With the defaults, the first trace line as written carries the
      arguments, where the documented gating leaves them out. */
  lemma GatingDiscrepancy(f: Frame)
    ensures FrameEntry(Defaults, AsWritten, 1, f) == FrameHeader(1, f) + FrameArgs(Defaults, f)
    ensures FrameEntry(Defaults, Intended, 1, f) == FrameHeader(1, f)
    ensures FrameEntry(Defaults, AsWritten, 1, f) != FrameEntry(Defaults, Intended, 1, f)
  {
    assert |FrameArgs(Defaults, f)| >= 1;
  }

  /** The trace line headers of `frames`, numbered from `n`. */
  function HeaderLines(frames: seq<Frame>, n: nat): (lines: seq<string>)
    ensures |lines| == |frames|
    ensures forall i :: 0 <= i < |frames| ==> lines[i] == FrameHeader(n + i, frames[i])
  {
    seq(|frames|, i requires 0 <= i < |frames| => FrameHeader(n + i, frames[i]))
  }

  /** Under the documented gating, `false` dumps the arguments of no frame:
      the trace is its headers alone. */
  lemma IntendedFalseDumpsNothing(o: Options, frames: seq<Frame>, n: nat)
    requires o.functionArgs == Flag(false)
    ensures Entries(o, Intended, frames, n) == Concat(HeaderLines(frames, n))
  {
    var lines, headers := Numbered(Renderer(o, Intended), frames, n), HeaderLines(frames, n);
    forall i | 0 <= i < |frames|
      ensures lines[i] == headers[i]
    {
      assert !WantsArgs(Intended, o.functionArgs, n + i);
      assert lines[i] == FrameEntry(o, Intended, n + i, frames[i]) == FrameHeader(n + i, frames[i]) + "";
    }
    assert lines == headers;
  }
}
