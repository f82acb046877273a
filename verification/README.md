# Himconsole console core, modelled in Dafny

This project models the deterministic core of the Himconsole interactive
command console (`Himconsole/console.cpp`). It covers four parts.

- **Line editor** (`Console::ReadLine`). A keystroke state machine over signed
  bytes. Its state is the line buffer, the history cursor `pHistory` and the
  prediction cursor `pPredict`; the `size_t(-1)` sentinel is `None`. It handles
  plain bytes, Backspace, Enter, Escape, Tab, and the two-byte function keys
  (prefix `0` or `-32`, then up `72` or down `80`). It also handles the
  too-long check against `cmd.max_size()`, which is a parameter `maxLen`.
  `LineEditor.Step` is one byte. `LineEditor.ReadFrom` folds it over a byte
  sequence and returns the finished line plus the unread bytes, or the editor
  still waiting for input.
- **History buffer**. A deque of strings, newest first, with capacity
  `historySize`. It is created and resized with `std::deque::resize`, so it is
  padded with empty strings or cut at the back. A push pops the back when the
  deque is full; at capacity 0, where that pop is undefined, the console's
  push records nothing (see Findings).
- **Line normalisation and command name**. Runs of spaces are collapsed by the
  source's replace loop (`CommandLine.Normalize`). This loop is proved to
  compute a one-pass reference definition (`CommandLine.Collapse`). The command
  name is the text before the first space.
- **Registry and dispatch**. `getCommand` by name and by index, the reserved
  `exit`, and the scan that runs the first matching command or reports an
  unknown command. A registered command is its pointer identity (`handle`)
  plus its name. So the source's `c == command.back()` test is modelled
  exactly, with no precondition.

`ConsoleLoop.Run` drives the whole loop over one byte stream. It records the
events the console produces: a command executed (by registry index), an
unknown-command report, and a too-long report.

Behaviour of the code that is easy to misread, modelled as written:

- The history is not empty at start. The constructor resizes it to
  `historySize` empty strings, and the up key can recall them.
- Tab never completes anything. `pPredict` is only ever assigned `-1`, and the
  model proves it stays unset in every read.
- The length check runs before each byte is classified. Any byte that arrives
  at a full buffer, Enter included, ends the read with an empty line. The byte
  after a function-key prefix skips the check.
- The unknown-command report is tied to the last registered pointer, not to a
  found-flag. The loop dispatches with this scan as written
  (`Registry.DispatchAsWritten`). When one pointer is registered twice it
  reports more than once, and it can report before a later match runs (see
  Findings). When no pointer is registered twice, the loop's contracts prove
  that it is the found-flag dispatch `Registry.Dispatch`.
- Tab appends the predicted name from the buffer's length on, whatever the
  buffer holds, not only when the buffer is a prefix of the name.
- Shrinking the history (`setHistorySize`) keeps the newest entries. Entries
  are dropped from the back.

`LineEditor.Step`, `NavigationKey` and `ReadFrom` require the history cursor,
when set, to point into the history (`LineEditor.Valid`). The source never
range-checks the cursor: every state it can reach satisfies this. The start
state satisfies it, and `Step` preserves it.

## Model

| member | source | states |
|---|---|---|
| History.Create | Himconsole/console.cpp:11-14 | The constructor leaves a history exactly `historySize` long, all empty strings |
| History.SetHistorySize | Himconsole/console.cpp:50-54 | After `setHistorySize(n)` the deque has exactly `n` entries. Shrinking keeps the first (newest) `n`. Growing keeps every old entry at its place and fills the new slots with empty strings |
| History.GetHistory | Himconsole/console.cpp:56-59 | `getHistory(id)` fails exactly when `id >= size`, and otherwise returns entry `id` |
| History.GetHistorySize | Himconsole/console.cpp:61-64 | The size reported is the number of stored entries. It equals the capacity whenever the deque is sized to it, and it is non-zero exactly when entry 0 exists |
| History.PushAsWritten | Himconsole/console.cpp:113-115 | The push as written is undefined exactly when the deque is empty and the capacity is 0. Otherwise the new line is at the front and the capacity is unchanged |
| History.ZeroCapacityPushUndefined | Himconsole/console.cpp:50-54 | `setHistorySize(0)` followed by any push reaches `pop_back` on an empty deque |
| History.Push | Himconsole/console.cpp:113-115 | A push keeps the size equal to the capacity. It puts the line at index 0 and moves entry `i` to `i+1`, with the oldest entry dropped when full |
| History.PushAgreesWithSource | Himconsole/console.cpp:113-115 | Wherever the code as written is defined, the console's push gives the same deque |
| History.PushIsBoundedPrepend | Himconsole/console.cpp:113-115 | A push is "prepend, then cut to the capacity" |
| History.PushAllKeepsNewest | Himconsole/console.cpp:113-115 | After any sequence of submitted lines, the history holds the most recent `historySize` lines, newest first, then the older contents |
| CommandLine.FindDoubleSpace | Himconsole/console.cpp:109 | `find("  ")` returns `npos` exactly when there is no double space. Otherwise it returns the first position of one |
| CommandLine.Collapse | Himconsole/console.cpp:108-110 | The normalised line has no double space. It is the input with only spaces deleted, and it keeps the first and last character (so a single leading or trailing space survives) |
| CommandLine.Normalize | Himconsole/console.cpp:108-110 | The replace-first-double-space loop terminates, and its result is the one-pass normal form |
| CommandLine.CollapseDropSpace | Himconsole/console.cpp:110 | Deleting one space of a double space does not change the normal form |
| CommandLine.CollapseFixpoint | Himconsole/console.cpp:108-110 | A line is left unchanged by normalisation if and only if it has no double space |
| CommandLine.CollapseIdempotent | Himconsole/console.cpp:108-110 | Normalising twice is normalising once |
| CommandLine.NormalizeExample | Himconsole/console.cpp:108-110 | `"a    b   c"` normalises to `"a b c"` |
| CommandLine.CommandName | Himconsole/console.cpp:119-121 | The command name is a prefix of the line with no space in it. It is followed by a space or by the end of the line |
| CommandLine.CommandNameUnique | Himconsole/console.cpp:119-121 | Any space-free prefix that ends at a space or at the end of the line is the command name |
| CommandLine.SpaceFreeLine | Himconsole/console.cpp:108-121 | A line without spaces is unchanged by normalisation and is its own command name |
| Registry.AddCommand | Himconsole/console.cpp:67-71 | `addCommand` appends the command after all earlier ones |
| Registry.GetCommandByName | Himconsole/console.cpp:74-80 | `getCommand(name)` returns `nullptr` exactly when no name matches. Otherwise it returns the lowest index whose name is exactly `name` |
| Registry.GetCommandById | Himconsole/console.cpp:82-85 | `getCommand(id)` fails exactly when `id >= size`, and otherwise returns command `id` |
| Registry.AddCommandKeepsLookup | Himconsole/console.cpp:67-80 | Registering a command never changes which command an existing name finds (earliest wins). A name that found nothing finds the new command exactly when the names are equal |
| Registry.DispatchAsWritten | Himconsole/console.cpp:128-139 | The scan as written executes index `k` exactly when `k` is the first exact match, and the execution is the last event. Every other event is an unknown-command report, one per entry before the first match (or in the whole registry, with no match) that holds the last registered pointer. With no match and a non-empty registry there is at least one report |
| Registry.ScanUpToMatch | Himconsole/console.cpp:129-139 | The scan from `i` to the first match `k` gives one report per entry in between holding the last pointer, then executes `k` |
| Registry.ScanWithoutMatch | Himconsole/console.cpp:129-139 | The scan from `i` with no match left gives one report per remaining entry holding the last pointer |
| Registry.Dispatch | Himconsole/console.cpp:128-139 | At most one event. Executed(i) exactly when `i` is the first exact match. One unknown report exactly when the registry is non-empty and nothing matches. Nothing at all with an empty registry |
| Registry.ScanAgreesWithDispatch | Himconsole/console.cpp:129-139 | With no pointer registered twice, the scan from any position not past a match produces the same events as the found-flag dispatch |
| Registry.DispatchAsWrittenAgrees | Himconsole/console.cpp:128-139 | With no pointer registered twice, the scan as written is exactly the found-flag dispatch |
| Registry.DuplicateRegistrationReportsTwice | Himconsole/console.cpp:137-138 | One pointer registered twice (a well-formed registry: one pointer, one name) and an unknown name give two unknown-command reports where the found-flag dispatch gives one |
| Registry.ReportBeforeMatch | Himconsole/console.cpp:129-139 | With the last pointer also registered first, a name that matches a middle command is reported unknown and then runs, where the found-flag dispatch only runs it |
| LineEditor.MoveTo | Himconsole/console.cpp:192-199 | Switching to history entry `k` leaves the cursor at `k` and replaces the buffer, whatever it held, by entry `k`; the prediction is untouched |
| LineEditor.NavigationKey | Himconsole/console.cpp:163-202 | Any key other than up or down, or an empty history, changes nothing. Up goes from unset to 0, else to `min(k+1, size-1)`. Down goes from unset to 0, else to `max(k-1, 0)`. When the cursor moves, the buffer becomes that entry; when it does not, nothing changes; the cursor stays in range |
| LineEditor.Complete | Himconsole/console.cpp:211-224 | Tab leaves the cursors alone. Where the name can be read at the buffer's length, the buffer keeps its text and grows to the name's length, ending in the name's characters from that position on; a buffer that is a prefix of the name becomes the full name. With no prediction (or out of bounds) nothing changes |
| LineEditor.Step | Himconsole/console.cpp:151-260 | One byte keeps the cursor in range and never sets the prediction. A read ends only on a byte that is not after a prefix. It ends as too long exactly when the buffer is at the limit, and then the line is empty; conversely, any byte not after a prefix that arrives at a full buffer (reached by typing, recall or otherwise) ends the read as too long. Otherwise it ends only on Enter, with the current buffer. Conversely, from any state not after a prefix and under the limit, Enter ends the read with the buffer, and Backspace on a non-empty buffer drops its last character and changes nothing else |
| LineEditor.ReadFrom | Himconsole/console.cpp:151-261 | A finished read consumed at least one byte and leaves a suffix of the input. A too-long read returns `""`. A blocked read keeps the cursor in range and the prediction unset |
| LineEditor.ReadLine | Himconsole/console.cpp:144-266 | From a fresh editor: the same, and a read waiting for input never has a prediction set |
| LineEditor.ReadFromAppend | Himconsole/console.cpp:151-261 | Reading two pieces of input one after the other is reading them joined |
| LineEditor.KeystrokesOfChars | Himconsole/console.cpp:251-259 | Typing the characters that any byte sequence stands for (as `cmd += buf` stores them) produces exactly those bytes |
| LineEditor.TypeOne | Himconsole/console.cpp:251-259 | A plain byte typed with room in the buffer is appended as its character |
| LineEditor.TypeAll | Himconsole/console.cpp:251-259 | Typing plain characters while the buffer has room appends exactly those characters |
| LineEditor.TypedLineReadBack | Himconsole/console.cpp:204-209 | Typing a plain line shorter than the limit and then Enter returns that line and leaves the following bytes unread |
| LineEditor.TypedLineTooLong | Himconsole/console.cpp:155-161 | After filling the buffer to the limit, the next byte (whatever it is) ends the read as too long with an empty line |
| LineEditor.ListingExample | Himconsole/console.cpp:204-209 | Feeding `l`, `s`, `\r` yields `"ls"` |
| LineEditor.BackspaceUndoesTyping | Himconsole/console.cpp:243-259 | A plain byte followed by Backspace leaves the editor as it was |
| LineEditor.BackspaceOnEmpty | Himconsole/console.cpp:243-247 | Backspace on an empty buffer changes nothing |
| LineEditor.EscapeResets | Himconsole/console.cpp:226-237 | Escape empties the buffer and unsets both cursors |
| LineEditor.TabNeverCompletes | Himconsole/console.cpp:211-215 | In every state a read can reach, Tab leaves the editor unchanged |
| LineEditor.OnePress | Himconsole/console.cpp:163-202 | A prefix byte and a key byte act as one navigation key |
| LineEditor.UpPresses | Himconsole/console.cpp:172-180 | `m` presses of up from cursor `j` leave the cursor at `min(j+m, size-1)`. If the cursor moved, the buffer is that entry; if it was already at the oldest entry, the editor (an edited buffer included) is unchanged |
| LineEditor.DownPresses | Himconsole/console.cpp:182-190 | `m` presses of down from cursor `j` leave the cursor at `max(j-m, 0)`. If the cursor moved, the buffer is that entry; if it was already at entry 0, the editor is unchanged |
| LineEditor.RecallThenEnter | Himconsole/console.cpp:172-209 | From a fresh read, `n` presses of up and then Enter submit entry `min(n, size) - 1` exactly as stored, leaving the following bytes unread |
| LineEditor.UpFromFreshRead | Himconsole/console.cpp:148-180 | From a fresh read, `n` presses of up recall entry `min(n, size) - 1` |
| ConsoleLoop.HandleLine | Himconsole/console.cpp:105-139 | An empty line is skipped. Otherwise the normalised line is pushed, and the turn exits exactly when the command name is `exit`. If not, the scan as written follows: Executed(i) exactly for the first match, as the last event, every earlier event an unknown report, and at least one report when the registry is non-empty and nothing matches. With no pointer registered twice it is the found-flag dispatch: at most one event, the match, or one report exactly when the registry is non-empty and nothing matches |
| ConsoleLoop.Run | Himconsole/console.cpp:95-141 | Running the loop (which dispatches with the scan as written) keeps the registry, the limit and the capacity. It keeps the history sized to its capacity and only ever executes registered indices |
| ConsoleLoop.RunOnNoInput | Himconsole/console.cpp:100-103 | With no input the loop is waiting in `ReadLine` and nothing happens |
| ConsoleLoop.RunTypedLine | Himconsole/console.cpp:100-139 | Typing a non-empty line and Enter runs one turn on that line. The loop then stops on exit, or goes on with the rest of the input |
| ConsoleLoop.ExitRunsNothing | Himconsole/console.cpp:124-126 | A line whose command name is `exit` ends the loop with no command executed and nothing reported, even if a command named `exit` is registered |
| ConsoleLoop.SingleLineEvents | Himconsole/console.cpp:100-139 | A typed line other than `exit`, alone in the input, produces exactly the events of the registry scan for its command name and does not exit |
| ConsoleLoop.KnownCommandRunsOnce | Himconsole/console.cpp:128-139 | A line naming a registered command executes the first command of that name once, as the last event. Before it come exactly as many unknown reports as earlier entries hold the last registered pointer. With no pointer registered twice the events are just that execution |
| ConsoleLoop.UnknownCommandReportedOnce | Himconsole/console.cpp:129-139 | A line naming no registered command, with a non-empty registry, executes nothing and gives one unknown report per entry holding the last registered pointer (at least one). With no pointer registered twice it is exactly one report |
| ConsoleLoop.TooLongLineSkipped | Himconsole/console.cpp:155-161 | A too-long line is reported once and recorded nowhere. The loop continues after the byte that overflowed |
| ConsoleLoop.EchoExample | Himconsole/console.cpp:128-135 | `echo` with a command `echo` registered executes it once |
| ConsoleLoop.ExitExample | Himconsole/console.cpp:124-126 | `exit` ends the loop even with a command named `exit` registered |
| ConsoleLoop.UnknownExample | Himconsole/console.cpp:137-138 | `frobnicate` with only `echo` registered gives one unknown-command report |

## Left out

- `Input` (Himconsole/console.cpp:293-306) is terminal I/O. It is the source of the byte sequence, and the bytes are given as a parameter. Input that ends in the middle of a line leaves the model waiting, as the source blocks.
- Screen output is not modelled: echo, erase sequences, text attributes and `PrintPrompt` (270-277). The two error reports are events; their localised text is not modelled.
- `setPrompt` (44-47) only sets text that `PrintPrompt` prints.
- The argument accessors (`getArgSize`, `getStringArg`, `getShortArg`, `getLongArg`, 22-41) are left out. Nothing in the core fills the argument map, and the numeric ones rely on library parsing (`stoi`, `stol`) and a narrowing to `short`.
- `SplitCmdToArg` and `CheckSyntax` (280-289) are empty stubs.
- `shrink_to_fit` (70, 116) only manages memory.
- `getCommandSize` (88-91) is the length of the registry sequence.
- What a command's `excute` does is not modelled; it is the event `Executed(i)`. The model also does not cover a command that changes the console while executing (registers commands, resizes the history). `Run` keeps the registry fixed.
- `cmd.max_size()` is the parameter `maxLen`.
- ConsoleLoop.HandleLine: records the line with `History.Push`, not the push as written. At capacity 0 the source's `pop_back` on an empty deque is undefined behaviour; the model records nothing there (see Findings). At every other capacity the two agree (`History.PushAgreesWithSource`).
- A command's identity and its name are independent fields, so a registry may give one handle two names, which no real `Command*` can have. `Registry.ConsistentHandles` states the real shape; every contract holds without it, and the two Findings registries satisfy it.
- LineEditor.Complete: where the source reads past the end of the predicted name or past the registry (undefined behaviour), the model leaves the buffer unchanged. A NUL inside a command name, which would cut the appended text short, is not modelled. No reachable state ever takes this branch.

## Findings

| source | as written | input that shows it | evidently intended | confidence | as-written member | corrected member |
|---|---|---|---|---|---|---|
| Himconsole/console.cpp:113-114 | `setHistorySize(0)` makes `history.size() == historySize == 0`, so the next line calls `pop_back()` on an empty deque | `setHistorySize(0)`, then any non-empty line | a capacity of 0 keeps no history | medium; not executed | History.PushAsWritten (History.ZeroCapacityPushUndefined) | History.Push |
| Himconsole/console.cpp:137-138 | the unknown-command report fires whenever the current pointer equals `command.back()` | the same `Command*` added twice, then an unknown name: reported twice. Or `x`, `echo`, `x` (the same pointer first and last), then `echo`: reported unknown, then `echo` runs | report once, and only when the scan finds no match | low; not executed | Registry.DispatchAsWritten (Registry.DuplicateRegistrationReportsTwice, Registry.ReportBeforeMatch) | Registry.Dispatch (Registry.DispatchAsWrittenAgrees) |
