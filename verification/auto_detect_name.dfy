/**
 The `AutoDetectName` trait: a command without a name derives one from its
 class name. The namespace segments after the first `Command` segment are
 each turned from CamelCase into snake_case and joined with `:`, so the class
 `Indigo\Console\Stub\Command\Sub\Name` is the command `sub:name`. The
 result is cached in the name field.
 */
module AutoDetectName {
  import opened Nullable
  import opened Strings

  // ---------------------------------------------------------------------
  // makeUnderscored
  // ---------------------------------------------------------------------

  /** `s` with `_` inserted before every position in `marks`, reading from
      position `i` on: the reference meaning of both regex passes. */
  function InsertFrom(s: string, marks: set<int>, i: nat): string
    requires i <= |s|
    decreases |s| - i
  {
    if i == |s| then [] else (if i in marks then "_" else "") + [s[i]] + InsertFrom(s, marks, i + 1)
  }

  /** Where the first pass inserts: between a lowercase letter or digit and
      the uppercase letter after it. */
  predicate IsCamelBoundary(s: string, j: int) {
    1 <= j < |s| && IsLowerOrDigit(s[j - 1]) && IsUpper(s[j])
  }

  function CamelBoundaries(s: string): set<int> {
    set j | 0 <= j < |s| && IsCamelBoundary(s, j)
  }

  /** Where the second pass inserts: before the last letter of every maximal
      run of two or more uppercase letters. */
  predicate IsRunBoundary(s: string, j: int) {
    1 <= j < |s| && IsUpper(s[j - 1]) && IsUpper(s[j]) && (j + 1 == |s| || !IsUpper(s[j + 1]))
  }

  function RunBoundaries(s: string): set<int> {
    set j | 0 <= j < |s| && IsRunBoundary(s, j)
  }

  /** `preg_replace('/([a-z\d])([A-Z])/', '\1_\2', s)` from position `i`:
      the scan resumes after each two-character match. */
  function CamelPassFrom(s: string, i: nat): string
    requires i <= |s|
    decreases |s| - i
  {
    if i + 1 >= |s| then s[i..]
    else if IsLowerOrDigit(s[i]) && IsUpper(s[i + 1]) then [s[i], '_', s[i + 1]] + CamelPassFrom(s, i + 2)
    else [s[i]] + CamelPassFrom(s, i + 1)
  }

  /** End of the run of uppercase letters starting at `i`. */
  function RunEnd(s: string, i: nat): (e: nat)
    requires i <= |s|
    ensures i <= e <= |s|
    ensures forall k :: i <= k < e ==> IsUpper(s[k])
    ensures e == |s| || !IsUpper(s[e])
    decreases |s| - i
  {
    if i == |s| || !IsUpper(s[i]) then i else RunEnd(s, i + 1)
  }

  /** `preg_replace('/([A-Z]+)([A-Z])/', '\1_\2', s)` from position `i`: the
      greedy `[A-Z]+` takes the whole run and gives its last letter back, so
      a run of two or more letters gets `_` before its last letter, and the
      scan resumes after the run. */
  function RunPassFrom(s: string, i: nat): string
    requires i <= |s|
    decreases |s| - i
  {
    if i == |s| then []
    else
      var e := RunEnd(s, i);
      if e - i >= 2 then s[i..e - 1] + "_" + [s[e - 1]] + RunPassFrom(s, e)
      else [s[i]] + RunPassFrom(s, i + 1)
  }

  /** `makeUnderscored`: both passes, then `strtolower`. */
  function MakeUnderscored(name: string): (r: string)
    ensures NoUpper(r)
  {
    ToLower(RunPassFrom(CamelPassFrom(name, 0), 0))
  }

  /** A stretch with no marks is copied unchanged. */
  lemma {:induction false} InsertUnmarked(s: string, marks: set<int>, i: nat, j: nat)
    requires i <= j <= |s|
    requires forall k :: i <= k < j ==> k !in marks
    ensures InsertFrom(s, marks, i) == s[i..j] + InsertFrom(s, marks, j)
    decreases j - i
  {
    if i < j {
      assert i !in marks;
      var rest := InsertFrom(s, marks, i + 1);
      assert InsertFrom(s, marks, i) == [s[i]] + rest;
      InsertUnmarked(s, marks, i + 1, j);
      assert rest == s[i + 1..j] + InsertFrom(s, marks, j);
      assert s[i..j] == [s[i]] + s[i + 1..j];
    }
  }

  lemma {:induction false} CamelPassInserts(s: string, i: nat)
    requires i <= |s|
    requires i !in CamelBoundaries(s)
    ensures CamelPassFrom(s, i) == InsertFrom(s, CamelBoundaries(s), i)
    decreases |s| - i
  {
    var marks := CamelBoundaries(s);
    if i + 1 >= |s| {
      if i < |s| {
        assert InsertFrom(s, marks, i) == [s[i]] + InsertFrom(s, marks, i + 1);
        assert s[i..] == [s[i]];
      }
    } else if IsLowerOrDigit(s[i]) && IsUpper(s[i + 1]) {
      assert i + 1 in marks;
      assert i + 2 !in marks;
      CamelPassInserts(s, i + 2);
    } else {
      assert i + 1 !in marks;
      CamelPassInserts(s, i + 1);
    }
  }

  /** The first pass inserts `_` exactly at the camel-case boundaries. */
  lemma CamelPassCorrect(s: string)
    ensures CamelPassFrom(s, 0) == InsertFrom(s, CamelBoundaries(s), 0)
  {
    CamelPassInserts(s, 0);
  }

  /** Inside an uppercase run only the last letter can be marked. */
  lemma RunInteriorUnmarked(s: string, i: nat)
    requires i < |s| && i !in RunBoundaries(s)
    ensures forall k :: i <= k < RunEnd(s, i) - 1 ==> k !in RunBoundaries(s)
  {
    var e := RunEnd(s, i);
    forall k | i <= k < e - 1
      ensures k !in RunBoundaries(s)
    {
      if k > i {
        assert IsUpper(s[k + 1]);
        assert !IsRunBoundary(s, k);
      }
    }
  }

  /** A run of two or more letters is marked before its last letter, and the
      letter after the run is not marked. */
  lemma RunEndMarks(s: string, i: nat)
    requires i < |s|
    requires RunEnd(s, i) - i >= 2
    ensures RunEnd(s, i) - 1 in RunBoundaries(s)
    ensures RunEnd(s, i) !in RunBoundaries(s)
  {
    var e := RunEnd(s, i);
    assert IsUpper(s[e - 2]) && IsUpper(s[e - 1]);
    assert IsRunBoundary(s, e - 1);
    assert !IsRunBoundary(s, e);
  }

  /** A run of two or more uppercase letters starting at an unmarked `i`
      gets exactly one mark, before its last letter. */
  lemma RunMarkedOnce(s: string, i: nat)
    requires i < |s| && i !in RunBoundaries(s)
    requires RunEnd(s, i) - i >= 2
    ensures var e := RunEnd(s, i);
            InsertFrom(s, RunBoundaries(s), i) == s[i..e - 1] + "_" + [s[e - 1]] + InsertFrom(s, RunBoundaries(s), e)
  {
    var marks := RunBoundaries(s);
    var e := RunEnd(s, i);
    RunInteriorUnmarked(s, i);
    InsertUnmarked(s, marks, i, e - 1);
    RunEndMarks(s, i);
    assert InsertFrom(s, marks, e - 1) == "_" + [s[e - 1]] + InsertFrom(s, marks, e);
  }

  /** A run of at most one letter is not marked after its start. */
  lemma RunShortUnmarked(s: string, i: nat)
    requires i < |s|
    requires RunEnd(s, i) - i < 2
    ensures i + 1 !in RunBoundaries(s)
  {
    assert !IsRunBoundary(s, i + 1);
  }

  lemma RunStepUnmarked(s: string, i: nat)
    requires i < |s| && i !in RunBoundaries(s)
    ensures InsertFrom(s, RunBoundaries(s), i) == [s[i]] + InsertFrom(s, RunBoundaries(s), i + 1)
  {
  }

  lemma {:induction false} RunPassInserts(s: string, i: nat)
    requires i <= |s|
    requires i !in RunBoundaries(s)
    ensures RunPassFrom(s, i) == InsertFrom(s, RunBoundaries(s), i)
    decreases |s| - i
  {
    if i < |s| {
      var e := RunEnd(s, i);
      if e - i >= 2 {
        assert RunPassFrom(s, i) == s[i..e - 1] + "_" + [s[e - 1]] + RunPassFrom(s, e);
        RunMarkedOnce(s, i);
        RunEndMarks(s, i);
        RunPassInserts(s, e);
      } else {
        assert RunPassFrom(s, i) == [s[i]] + RunPassFrom(s, i + 1);
        RunShortUnmarked(s, i);
        RunPassInserts(s, i + 1);
        RunStepUnmarked(s, i);
      }
    }
  }

  /** The second pass inserts `_` exactly before the last letter of every
      uppercase run of length two or more. */
  lemma RunPassCorrect(s: string)
    ensures RunPassFrom(s, 0) == InsertFrom(s, RunBoundaries(s), 0)
  {
    RunPassInserts(s, 0);
  }

  lemma {:induction false} InsertFromChars(s: string, marks: set<int>, i: nat)
    requires i <= |s|
    ensures forall c :: c in InsertFrom(s, marks, i) ==> c == '_' || c in s
    decreases |s| - i
  {
    if i < |s| {
      InsertFromChars(s, marks, i + 1);
    }
  }

  lemma {:induction false} CamelPassIdentity(s: string, i: nat)
    requires i <= |s| && NoUpper(s)
    ensures CamelPassFrom(s, i) == s[i..]
    decreases |s| - i
  {
    if i + 1 < |s| {
      CamelPassIdentity(s, i + 1);
      assert s[i..] == [s[i]] + s[i + 1..];
    }
  }

  lemma {:induction false} RunPassIdentity(s: string, i: nat)
    requires i <= |s| && NoUpper(s)
    ensures RunPassFrom(s, i) == s[i..]
    decreases |s| - i
  {
    if i < |s| {
      RunPassIdentity(s, i + 1);
      assert s[i..] == [s[i]] + s[i + 1..];
    }
  }

  /** The result has no uppercase letter left for either pass to find, so
      underscoring twice is underscoring once. */
  lemma MakeUnderscoredIdempotent(s: string)
    ensures MakeUnderscored(MakeUnderscored(s)) == MakeUnderscored(s)
  {
    var t := MakeUnderscored(s);
    CamelPassIdentity(t, 0);
    RunPassIdentity(t, 0);
    assert ToLower(t) == t;
  }

  /** Underscoring adds only `_` and lowercases letters: a character other
      than `_` that no letter lowercases to is in the result only if it was in
      the input. */
  lemma MakeUnderscoredChars(s: string, c: char)
    requires c != '_' && !('a' <= c <= 'z')
    ensures c in MakeUnderscored(s) ==> c in s
  {
    var t1 := CamelPassFrom(s, 0);
    var t2 := RunPassFrom(t1, 0);
    CamelPassCorrect(s);
    InsertFromChars(s, CamelBoundaries(s), 0);
    RunPassCorrect(t1);
    InsertFromChars(t1, RunBoundaries(t1), 0);
    if c in MakeUnderscored(s) {
      var k :| 0 <= k < |t2| && ToLower(t2)[k] == c;
      assert t2[k] == c;
    }
  }

  // ---------------------------------------------------------------------
  // getName
  // ---------------------------------------------------------------------

  /** Position of the first segment equal to `Command` (`array_search`). */
  function CommandSegment(segments: seq<string>): (r: Option<nat>)
    ensures r.Some? ==> r.value < |segments| && segments[r.value] == "Command"
    ensures r.Some? ==> forall j :: 0 <= j < r.value ==> segments[j] != "Command"
    ensures r.None? <==> "Command" !in segments
  {
    if |segments| == 0 then None
    else if segments[0] == "Command" then Some(0)
    else
      match CommandSegment(segments[1..])
      case None => None
      case Some(i) => Some(i + 1)
  }

  /** The namespace segments the name is built from: those after the first
      `Command` segment. Without one, `array_search` gives false, which adds
      to 1, so only the first segment is dropped. */
  function NameSegments(className: string): (segments: seq<string>)
    ensures var all := Split(className, '\\');
            segments == match CommandSegment(all)
                        case Some(k) => all[k + 1..]
                        case None => all[1..]
  {
    var all := Split(className, '\\');
    var start := match CommandSegment(all) case Some(k) => k + 1 case None => 1;
    all[start..]
  }

  function MapUnderscored(segments: seq<string>): (r: seq<string>)
    ensures |r| == |segments|
    ensures forall i :: 0 <= i < |r| ==> r[i] == MakeUnderscored(segments[i])
  {
    seq(|segments|, i requires 0 <= i < |segments| => MakeUnderscored(segments[i]))
  }

  /** Why detection failed: the `LogicException` the code means to throw, with
      its message, or the class PHP could not find when it tried. */
  datatype Failure = LogicError(message: string) | ClassNotFound(missing: string)

  /** The outcome of name detection: the name, or the failure. */
  datatype Detection = Detected(name: string) | Failed(failure: Failure)

  /** The trait's file declares the namespace `Indigo\Console\Command` and
      imports nothing, so the unqualified `LogicException` it throws resolves
      to this class, which does not exist. */
  const UnresolvedLogicException := "Indigo\\Console\\Command\\LogicException"

  /** Name detection as the trait's code is written: when no segment is left,
      instantiating the exception fails before any message is built. */
  function DetectNameAsWritten(className: string): (d: Detection)
    ensures d.Failed? <==> |NameSegments(className)| == 0
    ensures d.Failed? ==> d.failure == ClassNotFound(UnresolvedLogicException)
    ensures d.Detected? ==> d == DetectName(className)
  {
    var segments := NameSegments(className);
    if |segments| < 1 then Failed(ClassNotFound(UnresolvedLogicException))
    else Detected(Join(MapUnderscored(segments), ':'))
  }

  /** Name detection as intended: the global `LogicException`, whose message
      names the class. */
  function DetectName(className: string): (d: Detection)
    ensures d.Failed? <==> |NameSegments(className)| == 0
    ensures d.Failed? ==> d.failure == LogicError("Detecting command name for " + className + " failed")
  {
    var segments := NameSegments(className);
    if |segments| < 1 then Failed(LogicError("Detecting command name for " + className + " failed"))
    else Detected(Join(MapUnderscored(segments), ':'))
  }

  /** A class outside any namespace, such as `Foo`, leaves no segment: the
      code as written stops on the missing exception class instead of
      reporting the failure it means to report. */
  lemma DetectNameDiscrepancy()
    ensures DetectNameAsWritten("Foo") == Failed(ClassNotFound(UnresolvedLogicException))
    ensures DetectName("Foo") == Failed(LogicError("Detecting command name for Foo failed"))
  {
    SplitWithoutSeparator("Foo", '\\');
    assert CommandSegment(["Foo"]) == None;
  }

  /** Reading a detected name back: split on `:`, it gives the underscored
      segments one by one (class names hold no `:`). */
  lemma DetectedNameSplits(className: string)
    requires ':' !in className
    requires DetectName(className).Detected?
    ensures Split(DetectName(className).name, ':') == MapUnderscored(NameSegments(className))
  {
    var segments := NameSegments(className);
    var parts := MapUnderscored(segments);
    var all := Split(className, '\\');
    JoinSplit(className, '\\');
    forall i | 0 <= i < |parts| ensures ':' !in parts[i] {
      var seg := segments[i];
      assert seg in all;
      SegmentChars(all, '\\', seg);
      MakeUnderscoredChars(seg, ':');
    }
    SplitJoin(parts, ':');
  }

  /** A character that is in no piece of the text is in no segment `explode`
      returns from it. */
  lemma SegmentChars(all: seq<string>, sep: char, seg: string)
    requires seg in all
    ensures forall c :: c in seg ==> c in Join(all, sep)
  {
    var i :| 0 <= i < |all| && all[i] == seg;
    JoinContains(all, sep, i);
  }

  lemma {:induction false} JoinContains(all: seq<string>, sep: char, i: nat)
    requires i < |all|
    ensures forall c :: c in all[i] ==> c in Join(all, sep)
  {
    if |all| > 1 && i > 0 {
      JoinContains(all[1..], sep, i - 1);
    }
  }

  /** The trait's state: the class the trait is used in and the name field. */
  datatype Named = Named(className: string, name: Option<string>)

  /** `getName`: a set name is returned as is; otherwise the detected name is
      stored and returned. A failed detection stores nothing. */
  function GetName(n: Named): (r: (Named, Detection))
    ensures n.name.Some? ==> r == (n, Detected(n.name.value))
    ensures n.name.None? ==> r.1 == DetectName(n.className)
    ensures r.1.Detected? ==> r.0 == n.(name := Some(r.1.name))
    ensures r.1.Failed? ==> r.0 == n
  {
    match n.name
    case Some(s) => (n, Detected(s))
    case None =>
      match DetectName(n.className)
      case Detected(s) => (n.(name := Some(s)), Detected(s))
      case Failed(e) => (n, Failed(e))
  }

  /** Once `getName` succeeded, every later call returns the same name and
      changes nothing. */
  lemma GetNameCached(n: Named)
    requires GetName(n).1.Detected?
    ensures GetName(GetName(n).0) == (GetName(n).0, GetName(n).1)
  {
  }

  const StubClassName := "Indigo\\Console\\Stub\\Command\\Sub\\Name"
  const StubSegments: seq<string> := ["Indigo", "Console", "Stub", "Command", "Sub", "Name"]

  lemma StubClassJoined()
    ensures Join(StubSegments, '\\') == StubClassName
  {
  }

  lemma StubClassSegments()
    ensures Split(StubClassName, '\\') == StubSegments
  {
    StubClassJoined();
    SplitJoin(StubSegments, '\\');
  }

  lemma StubNameSegments(className: string)
    requires Split(className, '\\') == StubSegments
    ensures NameSegments(className) == ["Sub", "Name"]
  {
    assert CommandSegment(StubSegments) == Some(3);
    assert StubSegments[4..] == ["Sub", "Name"];
  }

  /** A word with at most its first letter uppercase gives neither pass
      anything to do: underscoring it only lowercases it. */
  lemma CapitalizedWord(s: string)
    requires forall j :: 1 <= j < |s| ==> !IsUpper(s[j])
    ensures MakeUnderscored(s) == ToLower(s)
  {
    var camel := CamelBoundaries(s);
    CamelPassCorrect(s);
    InsertUnmarked(s, camel, 0, |s|);
    assert s[0..|s|] == s;
    var t := CamelPassFrom(s, 0);
    assert t == s;
    var runs := RunBoundaries(s);
    RunPassCorrect(s);
    InsertUnmarked(s, runs, 0, |s|);
  }

  lemma SubUnderscored()
    ensures MakeUnderscored("Sub") == "sub"
  {
    CapitalizedWord("Sub");
    assert ToLower("Sub") == "sub";
  }

  lemma NameUnderscored()
    ensures MakeUnderscored("Name") == "name"
  {
    CapitalizedWord("Name");
    assert ToLower("Name") == "name";
  }

  lemma StubName(className: string)
    requires NameSegments(className) == ["Sub", "Name"]
    ensures DetectName(className) == Detected("sub:name")
  {
    SubUnderscored();
    NameUnderscored();
    var parts := MapUnderscored(["Sub", "Name"]);
    assert parts[0] == "sub" && parts[1] == "name";
    assert parts == ["sub", "name"];
    assert Join(["sub", "name"], ':') == "sub:name";
  }

  /** The class of the name-detection stub becomes the command `sub:name`. */
  lemma StubDetectsSubName()
    ensures DetectName(StubClassName) == Detected("sub:name")
  {
    StubClassSegments();
    StubNameSegments(StubClassName);
    StubName(StubClassName);
  }
}
