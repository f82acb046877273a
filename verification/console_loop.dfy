/** `Console::console`: read a line, skip it if empty, normalise it, record
    it in the history, split off the command name, stop on `exit`, and
    otherwise dispatch to the registry. Repeated over one byte stream. */
module ConsoleLoop {
  import opened Base
  import opened History
  import opened CommandLine
  import opened Registry
  import opened LineEditor

  /** The parts of a `Console` the loop reads and writes. */
  datatype Console = Console(history: HistoryBuffer, commands: Registry, maxLen: nat)

  /** What `ReadLine` sees of the console. */
  function EditorContext(c: Console): (ctx: Context)
  {
    Context(c.history.entries, c.commands, c.maxLen)
  }

  /** The end of one turn of the loop. */
  datatype Turn =
    | Skipped                                            // empty line: `continue`
    | Exited(history: HistoryBuffer)                     // `exit`: `return`
    | Dispatched(history: HistoryBuffer, events: seq<Event>)

  /** One turn after `ReadLine` returned `line`. The normalised line is what
      is recorded; `exit` is checked after recording and before any command
      runs; otherwise the registry is scanned as the code does it. Only the
      first command whose name is the command name runs, and it runs last;
      everything before it is an unknown-command report, and with no match
      there is at least one. When no pointer is registered twice this is
      the found-flag dispatch: at most one event, the match or one report. */
  function HandleLine(c: Console, line: string): (t: Turn)
    ensures t.Skipped? <==> line == ""
    ensures !t.Skipped? ==> t.history == Push(c.history, Collapse(line))
    ensures t.Exited? <==> line != "" && CommandName(Collapse(line)) == "exit"
    ensures t.Dispatched? ==> forall i: nat :: Executed(i) in t.events <==>
              GetCommandByName(c.commands, CommandName(Collapse(line))) == Some(i)
    ensures t.Dispatched? ==> forall j :: 0 <= j < |t.events| - 1 ==> t.events[j] == UnknownCommandReported
    ensures t.Dispatched? && NoMatch(c.commands, CommandName(Collapse(line))) ==>
              (forall e | e in t.events :: e == UnknownCommandReported)
              && (|c.commands| > 0 ==> UnknownCommandReported in t.events)
    ensures t.Dispatched? && DistinctHandles(c.commands) ==>
              t.events == Dispatch(c.commands, CommandName(Collapse(line)))
    ensures t.Dispatched? && DistinctHandles(c.commands) ==> |t.events| <= 1
    ensures t.Dispatched? && DistinctHandles(c.commands) ==> (UnknownCommandReported in t.events <==>
              |c.commands| > 0 && NoMatch(c.commands, CommandName(Collapse(line))))
  {
    if line == "" then Skipped
    else
      var normal := Collapse(line);
      var history := Push(c.history, normal);
      var name := CommandName(normal);
      if name == "exit" then Exited(history)
      else
        var events := DispatchAsWritten(c.commands, name);
        assert DistinctHandles(c.commands) ==> events == Dispatch(c.commands, name) by {
          if DistinctHandles(c.commands) {
            DispatchAsWrittenAgrees(c.commands, name);
          }
        }
        Dispatched(history, events)
  }

  /** The console after a run, what it reported and executed in order, and
      whether the loop returned. */
  datatype Session = Session(console: Console, events: seq<Event>, exited: bool)

  /** The loop run over a byte stream until `exit` or the end of the input. */
  function Run(c: Console, bytes: seq<SByte>): (s: Session)
    ensures s.console.commands == c.commands && s.console.maxLen == c.maxLen
    ensures s.console.history.capacity == c.history.capacity
    ensures c.history.Valid() ==> s.console.history.Valid()
    ensures forall e | e in s.events :: e.Executed? ==> e.index < |c.commands|
    decreases |bytes|
  {
    match ReadLine(EditorContext(c), bytes)
    case Blocked(_) => Session(c, [], false)
    case Line(line, tooLong, rest) =>
      var report := if tooLong then [CommandTooLongReported] else [];
      match HandleLine(c, line)
      case Skipped =>
        var s := Run(c, rest);
        Session(s.console, report + s.events, s.exited)
      case Exited(h) =>
        Session(c.(history := h), report, true)
      case Dispatched(h, events) =>
        var s := Run(c.(history := h), rest);
        Session(s.console, report + events + s.events, s.exited)
  }

  /** With no input left the loop waits and nothing happens. */
  lemma RunOnNoInput(c: Console)
    ensures Run(c, []) == Session(c, [], false)
  {
  }

  /** Typing a non-empty line and Enter runs exactly one turn on that line,
      then the loop goes on with the remaining bytes unless it exited. */
  lemma RunTypedLine(c: Console, line: string, rest: seq<SByte>)
    requires Typable(line) && 0 < |line| < c.maxLen
    ensures var t := HandleLine(c, line);
            Run(c, Keystrokes(line) + [ENTER] + rest) ==
              if t.Exited? then Session(c.(history := t.history), [], true)
              else
                var s := Run(c.(history := t.history), rest);
                Session(s.console, t.events + s.events, s.exited)
  {
    var bytes := Keystrokes(line) + [ENTER] + rest;
    TypedLineReadBack(EditorContext(c), line, rest);
    assert ReadLine(EditorContext(c), bytes) == Line(line, false, rest);
    var t := HandleLine(c, line);
    assert !t.Skipped?;
    if t.Dispatched? {
      assert [] + t.events == t.events;
    }
  }

  /** A line whose command name is `exit` ends the loop with nothing
      executed and nothing reported, whatever is registered, even a command
      named `exit`, and whatever input follows. */
  lemma ExitRunsNothing(c: Console, line: string, rest: seq<SByte>)
    requires Typable(line) && 0 < |line| < c.maxLen
    requires CommandName(Collapse(line)) == "exit"
    ensures Run(c, Keystrokes(line) + [ENTER] + rest).exited
    ensures Run(c, Keystrokes(line) + [ENTER] + rest).events == []
  {
    RunTypedLine(c, line, rest);
  }

  /** A typed line other than `exit`, alone in the input, gives exactly the
      events of the registry scan for its command name. */
  lemma SingleLineEvents(c: Console, line: string)
    requires Typable(line) && 0 < |line| < c.maxLen
    requires CommandName(Collapse(line)) != "exit"
    ensures Run(c, Keystrokes(line) + [ENTER]).events
              == DispatchAsWritten(c.commands, CommandName(Collapse(line)))
    ensures !Run(c, Keystrokes(line) + [ENTER]).exited
  {
    var t := HandleLine(c, line);
    assert t.Dispatched? && t.events == DispatchAsWritten(c.commands, CommandName(Collapse(line)));
    RunTypedLine(c, line, []);
    var c1 := c.(history := t.history);
    RunOnNoInput(c1);
    assert Run(c, Keystrokes(line) + [ENTER] + []) == Session(c1, t.events, false);
    assert Keystrokes(line) + [ENTER] + [] == Keystrokes(line) + [ENTER];
  }

  /** A line naming a registered command runs it once, last: the first
      command registered under that name. Any event before it is an
      unknown-command report, one per earlier entry holding the last
      registered pointer; with no pointer registered twice there is none. */
  lemma KnownCommandRunsOnce(c: Console, line: string, i: nat)
    requires Typable(line) && 0 < |line| < c.maxLen
    requires CommandName(Collapse(line)) != "exit"
    requires GetCommandByName(c.commands, CommandName(Collapse(line))) == Some(i)
    ensures var events := Run(c, Keystrokes(line) + [ENTER]).events;
            |events| == LastPointerCount(c.commands, 0, i) + 1 && events[|events| - 1] == Executed(i)
            && forall j :: 0 <= j < |events| - 1 ==> events[j] == UnknownCommandReported
    ensures DistinctHandles(c.commands) ==> Run(c, Keystrokes(line) + [ENTER]).events == [Executed(i)]
    ensures !Run(c, Keystrokes(line) + [ENTER]).exited
  {
    var name := CommandName(Collapse(line));
    var events := Run(c, Keystrokes(line) + [ENTER]).events;
    SingleLineEvents(c, line);
    assert events == DispatchAsWritten(c.commands, name);
    assert GetCommandByName(c.commands, name).value == i;
    assert |events| == LastPointerCount(c.commands, 0, i) + 1 && events[|events| - 1] == Executed(i);
    assert forall j :: 0 <= j < |events| - 1 ==> events[j] == UnknownCommandReported;
    if DistinctHandles(c.commands) {
      DispatchAsWrittenAgrees(c.commands, name);
    }
  }

  /** A line naming no registered command, with a non-empty registry, runs
      nothing and is reported as unknown once per entry holding the last
      registered pointer: exactly once when no pointer is registered twice. */
  lemma UnknownCommandReportedOnce(c: Console, line: string)
    requires Typable(line) && 0 < |line| < c.maxLen
    requires CommandName(Collapse(line)) != "exit"
    requires |c.commands| > 0 && NoMatch(c.commands, CommandName(Collapse(line)))
    ensures var events := Run(c, Keystrokes(line) + [ENTER]).events;
            |events| == LastPointerCount(c.commands, 0, |c.commands|) > 0
            && forall e | e in events :: e == UnknownCommandReported
    ensures DistinctHandles(c.commands) ==>
              Run(c, Keystrokes(line) + [ENTER]).events == [UnknownCommandReported]
    ensures !Run(c, Keystrokes(line) + [ENTER]).exited
  {
    var name := CommandName(Collapse(line));
    SingleLineEvents(c, line);
    if DistinctHandles(c.commands) {
      DispatchAsWrittenAgrees(c.commands, name);
    }
  }

  /** A too-long line is reported once, recorded nowhere, and the loop goes
      on with the bytes after the one that overflowed. */
  lemma TooLongLineSkipped(c: Console, line: string, b: SByte, rest: seq<SByte>)
    requires Typable(line) && |line| == c.maxLen
    ensures Run(c, Keystrokes(line) + [b] + rest) ==
              var s := Run(c, rest);
              Session(s.console, [CommandTooLongReported] + s.events, s.exited)
  {
    TypedLineTooLong(EditorContext(c), line, b, rest);
  }

  /** The line "echo" with a command named "echo" registered runs it once. */
  lemma EchoExample(history: HistoryBuffer, line: string)
    requires line == "echo"
    ensures Run(Console(history, [Command(1, "echo")], 4096), Keystrokes(line) + [ENTER]).events
              == [Executed(0)]
  {
    assert Typable(line);
    SpaceFreeLine(line);
    KnownCommandRunsOnce(Console(history, [Command(1, "echo")], 4096), line, 0);
  }

  /** The line "exit" ends the loop even with a command named "exit". */
  lemma ExitExample(history: HistoryBuffer, line: string, rest: seq<SByte>)
    requires line == "exit"
    ensures Run(Console(history, [Command(1, "exit")], 4096), Keystrokes(line) + [ENTER] + rest).exited
    ensures Run(Console(history, [Command(1, "exit")], 4096), Keystrokes(line) + [ENTER] + rest).events == []
  {
    assert Typable(line);
    SpaceFreeLine(line);
    ExitRunsNothing(Console(history, [Command(1, "exit")], 4096), line, rest);
  }

  /** The line "frobnicate" with only "echo" registered is reported once. */
  lemma UnknownExample(history: HistoryBuffer, line: string)
    requires line == "frobnicate"
    ensures Run(Console(history, [Command(1, "echo")], 4096), Keystrokes(line) + [ENTER]).events
              == [UnknownCommandReported]
  {
    assert Typable(line);
    SpaceFreeLine(line);
    var c := Console(history, [Command(1, "echo")], 4096);
    assert NoMatch(c.commands, line) by {
      assert c.commands[0].name != line;
    }
    UnknownCommandReportedOnce(c, line);
  }
}
