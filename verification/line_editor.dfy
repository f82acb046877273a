/** `Console::ReadLine`: the keystroke state machine that assembles one
    command line. One signed byte is consumed per step; a function-key
    prefix makes the next byte a key code. Echo and erase output is not
    modelled; the finished line and the too-long report are. */
module LineEditor {
  import opened Base
  import opened Registry

  const NUL_PREFIX: SByte := 0
  const EXTENDED_PREFIX: SByte := -32
  const KEY_UP: SByte := 72
  const KEY_DOWN: SByte := 80
  const BACKSPACE: SByte := 8      // '\b'
  const TAB: SByte := 9            // '\t'
  const ENTER: SByte := 13         // '\r'
  const ESC: SByte := 27

  /** The first byte of a two-byte function-key code. */
  predicate IsFunctionKeyPrefix(b: SByte)
  {
    b == NUL_PREFIX || b == EXTENDED_PREFIX
  }

  /** A byte with no editing meaning: it is echoed and appended. */
  predicate IsPlain(b: SByte)
  {
    !IsFunctionKeyPrefix(b) && b != ENTER && b != TAB && b != ESC && b != BACKSPACE
  }

  /** What a read consults but never changes: the history as it stands, the
      registry (for completion) and the buffer limit `cmd.max_size()`. */
  datatype Context = Context(history: seq<string>, commands: Registry, maxLen: nat)

  /** The editor's state: the line buffer, the history cursor `pHistory`,
      the prediction cursor `pPredict` (`None` for `size_t(-1)`), and whether
      the previous byte was a function-key prefix. */
  datatype Editor = Editor(buf: string, pHistory: Option<nat>, pPredict: Option<nat>, awaitingKey: bool)

  datatype Phase = Reading(ed: Editor) | Finished(line: string, tooLong: bool)

  /** The state at the top of `ReadLine`. */
  const Start: Editor := Editor("", None, None, false)

  /** The history cursor, when set, points into the history. */
  predicate Valid(ctx: Context, ed: Editor)
  {
    ed.pHistory.Some? ==> ed.pHistory.value < |ctx.history|
  }

  /** Switching to history entry `k`: the cursor is set to `k` and the
      buffer, whatever it held, is replaced by that entry. */
  function MoveTo(ctx: Context, ed: Editor, k: nat): (r: Editor)
    requires k < |ctx.history|
    ensures Valid(ctx, r) && r.pHistory == Some(k)
    ensures r.buf == ctx.history[k]
    ensures r.pPredict == ed.pPredict && r.awaitingKey == ed.awaitingKey
  {
    ed.(pHistory := Some(k), buf := ctx.history[k])
  }

  function Min(a: int, b: int): (r: int) { if a <= b then a else b }
  function Max(a: int, b: int): (r: int) { if a <= b then b else a }

  /** The byte after a function-key prefix. Up moves the cursor towards
      older entries and down towards newer ones, both starting at 0 from
      unset and both clamped to the history; any other key, or an empty
      history, leaves everything as it is. */
  function NavigationKey(ctx: Context, ed: Editor, key: SByte): (r: Editor)
    requires Valid(ctx, ed)
    ensures Valid(ctx, r)
    ensures r.pPredict == ed.pPredict && r.awaitingKey == ed.awaitingKey
    ensures |ctx.history| == 0 || (key != KEY_UP && key != KEY_DOWN) ==> r == ed
    ensures key == KEY_UP && |ctx.history| > 0 ==>
              r.pHistory == Some(if ed.pHistory.None? then 0
                                 else Min(ed.pHistory.value + 1, |ctx.history| - 1))
    ensures key == KEY_DOWN && |ctx.history| > 0 ==>
              r.pHistory == Some(if ed.pHistory.None? then 0
                                 else Max(ed.pHistory.value - 1, 0))
    ensures r.pHistory == ed.pHistory ==> r == ed
    ensures r.pHistory != ed.pHistory ==> r.pHistory.Some? && r.buf == ctx.history[r.pHistory.value]
  {
    if |ctx.history| == 0 then ed
    else if key == KEY_UP then
      match ed.pHistory
      case None => MoveTo(ctx, ed, 0)
      case Some(k) => if k < |ctx.history| - 1 then MoveTo(ctx, ed, k + 1) else ed
    else if key == KEY_DOWN then
      match ed.pHistory
      case None => MoveTo(ctx, ed, 0)
      case Some(k) => if k > 0 then MoveTo(ctx, ed, k - 1) else ed
    else ed
  }

  /** The predicted command exists and its name is at least as long as the
      buffer, so reading the name at the buffer's length is in bounds. */
  predicate CanComplete(ctx: Context, ed: Editor)
  {
    ed.pPredict.Some? && ed.pPredict.value < |ctx.commands|
    && |ed.buf| <= |ctx.commands[ed.pPredict.value].name|
  }

  /** Tab: append the predicted command's name from the position of the
      buffer's length on, whatever the buffer holds. Where the source
      indexes out of bounds (prediction past the registry, or a buffer
      longer than the name) the buffer is left unchanged. */
  function Complete(ctx: Context, ed: Editor): (r: Editor)
    ensures r.pHistory == ed.pHistory && r.pPredict == ed.pPredict && r.awaitingKey == ed.awaitingKey
    ensures !CanComplete(ctx, ed) ==> r == ed
    ensures CanComplete(ctx, ed) ==>
              var name := ctx.commands[ed.pPredict.value].name;
              ed.buf <= r.buf && |r.buf| == |name| && r.buf[|ed.buf|..] == name[|ed.buf|..]
    ensures CanComplete(ctx, ed) && ed.buf <= ctx.commands[ed.pPredict.value].name ==>
              r.buf == ctx.commands[ed.pPredict.value].name
  {
    if CanComplete(ctx, ed) then
      var name := ctx.commands[ed.pPredict.value].name;
      ed.(buf := ed.buf + name[|ed.buf|..])
    else
      ed
  }

  /** One byte of input. The length check comes first, before the byte is
      looked at, so any byte arriving at a full buffer ends the read with an
      empty line; the byte after a prefix is exempt from it. */
  function Step(ctx: Context, ed: Editor, b: SByte): (p: Phase)
    requires Valid(ctx, ed)
    ensures p.Reading? ==> Valid(ctx, p.ed)
    ensures p.Reading? && ed.pPredict.None? ==> p.ed.pPredict.None?
    ensures p.Finished? ==> !ed.awaitingKey
    ensures p.Finished? ==> (p.tooLong <==> |ed.buf| >= ctx.maxLen)
    ensures p.Finished? && p.tooLong ==> p.line == ""
    ensures p.Finished? && !p.tooLong ==> b == ENTER && p.line == ed.buf
    ensures !ed.awaitingKey && |ed.buf| >= ctx.maxLen ==> p == Finished("", true)
    ensures !ed.awaitingKey && |ed.buf| < ctx.maxLen && b == ENTER ==> p == Finished(ed.buf, false)
    ensures !ed.awaitingKey && |ed.buf| < ctx.maxLen && b == BACKSPACE && |ed.buf| > 0 ==>
              p.Reading? && ed.buf == p.ed.buf + [ed.buf[|ed.buf| - 1]]
              && p.ed == ed.(buf := p.ed.buf)
  {
    if ed.awaitingKey then
      Reading(NavigationKey(ctx, ed.(awaitingKey := false), b))
    else if |ed.buf| >= ctx.maxLen then
      Finished("", true)
    else if IsFunctionKeyPrefix(b) then
      Reading(ed.(awaitingKey := true))
    else if b == ENTER then
      Finished(ed.buf, false)
    else if b == TAB then
      Reading(Complete(ctx, ed))
    else if b == ESC then
      Reading(Start)
    else if b == BACKSPACE then
      Reading(if |ed.buf| == 0 then ed else ed.(buf := ed.buf[..|ed.buf| - 1]))
    else
      Reading(ed.(buf := ed.buf + [ByteToChar(b)]))
  }

  /** The result of feeding bytes to the editor: a finished line with the
      bytes left over, or the editor still waiting for input. */
  datatype ReadOutcome = Line(line: string, tooLong: bool, rest: seq<SByte>) | Blocked(ed: Editor)

  /** `Step` folded over the input until the read finishes. */
  function ReadFrom(ctx: Context, ed: Editor, bytes: seq<SByte>): (r: ReadOutcome)
    requires Valid(ctx, ed)
    ensures r.Line? ==> |r.rest| < |bytes| && r.rest == bytes[|bytes| - |r.rest|..]
    ensures r.Line? && r.tooLong ==> r.line == ""
    ensures r.Blocked? ==> Valid(ctx, r.ed)
    ensures r.Blocked? && ed.pPredict.None? ==> r.ed.pPredict.None?
    decreases |bytes|
  {
    if |bytes| == 0 then Blocked(ed)
    else
      match Step(ctx, ed, bytes[0])
      case Finished(line, tooLong) => Line(line, tooLong, bytes[1..])
      case Reading(next) => ReadFrom(ctx, next, bytes[1..])
  }

  /** `ReadLine`: a fresh editor reading from the byte stream. */
  function ReadLine(ctx: Context, bytes: seq<SByte>): (r: ReadOutcome)
    ensures r.Line? ==> |r.rest| < |bytes| && r.rest == bytes[|bytes| - |r.rest|..]
    ensures r.Line? && r.tooLong ==> r.line == ""
    ensures r.Blocked? ==> Valid(ctx, r.ed) && r.ed.pPredict.None?
  {
    ReadFrom(ctx, Start, bytes)
  }

  /** Reading in two pieces is reading the whole. */
  lemma {:induction false} ReadFromAppend(ctx: Context, ed: Editor, a: seq<SByte>, b: seq<SByte>)
    requires Valid(ctx, ed)
    ensures var first := ReadFrom(ctx, ed, a);
            ReadFrom(ctx, ed, a + b) ==
              if first.Blocked? then ReadFrom(ctx, first.ed, b)
              else Line(first.line, first.tooLong, first.rest + b)
    decreases |a|
  {
    if |a| > 0 {
      assert (a + b)[0] == a[0] && (a + b)[1..] == a[1..] + b;
      match Step(ctx, ed, a[0])
      case Finished(_, _) =>
      case Reading(next) => ReadFromAppend(ctx, next, a[1..], b);
    } else {
      assert a + b == b;
    }
  }

  /** Reading starts with the first byte. */
  lemma ReadFromCons(ctx: Context, ed: Editor, b: SByte, tail: seq<SByte>)
    requires Valid(ctx, ed)
    ensures var p := Step(ctx, ed, b);
            ReadFrom(ctx, ed, [b] + tail) ==
              if p.Finished? then Line(p.line, p.tooLong, tail) else ReadFrom(ctx, p.ed, tail)
  {
    assert ([b] + tail)[0] == b && ([b] + tail)[1..] == tail;
  }

  // ----- Typing a line ---------------------------------------------------

  /** The bytes that type the characters of `s`. */
  function Keystrokes(s: string): (bs: seq<SByte>)
    requires IsByteString(s)
    ensures |bs| == |s|
    ensures forall i :: 0 <= i < |s| ==> ByteToChar(bs[i]) == s[i]
    decreases |s|
  {
    if |s| == 0 then [] else [CharToByte(s[0])] + Keystrokes(s[1..])
  }

  /** The characters a byte sequence stands for. */
  function Chars(bs: seq<SByte>): (s: string)
    ensures |s| == |bs| && IsByteString(s)
    ensures forall i :: 0 <= i < |bs| ==> s[i] == ByteToChar(bs[i])
  {
    seq(|bs|, i requires 0 <= i < |bs| => ByteToChar(bs[i]))
  }

  /** Typing the characters any byte sequence stands for produces exactly
      those bytes: the byte/character correspondence loses nothing. */
  lemma KeystrokesOfChars(bs: seq<SByte>)
    ensures Keystrokes(Chars(bs)) == bs
  {
    var s := Chars(bs);
    forall i | 0 <= i < |bs|
      ensures Keystrokes(s)[i] == bs[i]
    {
      ByteCharRoundTrip(bs[i]);
      ByteCharRoundTrip(Keystrokes(s)[i]);
    }
  }

  /** A line that can be typed key by key: every character is a plain byte. */
  predicate Typable(s: string)
  {
    IsByteString(s) && forall i :: 0 <= i < |s| ==> IsPlain(CharToByte(s[i]))
  }

  /** A plain character typed with room in the buffer is appended. */
  lemma TypeOne(ctx: Context, ed: Editor, c: char)
    requires Valid(ctx, ed) && !ed.awaitingKey && |ed.buf| < ctx.maxLen
    requires c as int < 256 && IsPlain(CharToByte(c))
    ensures Step(ctx, ed, CharToByte(c)) == Reading(ed.(buf := ed.buf + [c]))
  {
  }

  lemma TypableTail(s: string)
    requires |s| > 0 && Typable(s)
    ensures Typable(s[1..]) && IsPlain(CharToByte(s[0]))
    ensures Keystrokes(s) == [CharToByte(s[0])] + Keystrokes(s[1..])
  {
    forall i | 0 <= i < |s[1..]| ensures IsPlain(CharToByte(s[1..][i])) {
      assert s[1..][i] == s[i + 1];
    }
  }

  lemma AppendFirst(a: string, s: string)
    requires |s| > 0
    ensures (a + [s[0]]) + s[1..] == a + s
  {
    assert s == [s[0]] + s[1..];
  }

  /** Typing plain characters while the buffer has room appends them. */
  lemma {:induction false} TypeAll(ctx: Context, ed: Editor, s: string, tail: seq<SByte>)
    requires Valid(ctx, ed) && !ed.awaitingKey
    requires Typable(s)
    requires |ed.buf| + |s| <= ctx.maxLen
    ensures ReadFrom(ctx, ed, Keystrokes(s) + tail) == ReadFrom(ctx, ed.(buf := ed.buf + s), tail)
    decreases |s|
  {
    if |s| == 0 {
      assert Keystrokes(s) + tail == tail;
      assert ed.(buf := ed.buf + s) == ed;
    } else {
      TypableTail(s);
      var b := CharToByte(s[0]);
      var next := ed.(buf := ed.buf + [s[0]]);
      TypeOne(ctx, ed, s[0]);
      var more := Keystrokes(s[1..]) + tail;
      assert Keystrokes(s) + tail == [b] + more;
      ReadFromCons(ctx, ed, b, more);
      assert ReadFrom(ctx, ed, [b] + more) == ReadFrom(ctx, next, more);
      assert Valid(ctx, next) && !next.awaitingKey && |next.buf| + |s[1..]| <= ctx.maxLen;
      TypeAll(ctx, next, s[1..], tail);
      AppendFirst(ed.buf, s);
      assert next.(buf := next.buf + s[1..]) == ed.(buf := ed.buf + s);
    }
  }

  /** Typing a line shorter than the limit and pressing Enter reads the
      line back, leaving the following bytes unread. */
  lemma TypedLineReadBack(ctx: Context, s: string, rest: seq<SByte>)
    requires Typable(s) && |s| < ctx.maxLen
    ensures ReadLine(ctx, Keystrokes(s) + [ENTER] + rest) == Line(s, false, rest)
  {
    assert Keystrokes(s) + [ENTER] + rest == Keystrokes(s) + ([ENTER] + rest);
    TypeAll(ctx, Start, s, [ENTER] + rest);
    assert Start.(buf := Start.buf + s) == Editor(s, None, None, false);
  }

  /** Filling the buffer to the limit makes the next byte, whatever it is,
      end the read with the too-long report and an empty line. */
  lemma TypedLineTooLong(ctx: Context, s: string, b: SByte, rest: seq<SByte>)
    requires Typable(s) && |s| == ctx.maxLen
    ensures ReadLine(ctx, Keystrokes(s) + [b] + rest) == Line("", true, rest)
  {
    assert Keystrokes(s) + [b] + rest == Keystrokes(s) + ([b] + rest);
    TypeAll(ctx, Start, s, [b] + rest);
  }

  lemma ListingExample(ctx: Context)
    requires ctx.maxLen > 2
    ensures ReadLine(ctx, [108, 115, ENTER]) == Line("ls", false, [])
  {
    assert Typable("ls");
    assert Keystrokes("ls") == [108, 115];
    TypedLineReadBack(ctx, "ls", []);
    assert Keystrokes("ls") + [ENTER] + [] == [108, 115, ENTER];
  }

  // ----- Editing keys ----------------------------------------------------

  /** Backspace right after a typed character restores the editor. */
  lemma BackspaceUndoesTyping(ctx: Context, ed: Editor, b: SByte)
    requires Valid(ctx, ed) && !ed.awaitingKey && IsPlain(b)
    requires |ed.buf| + 1 < ctx.maxLen
    ensures ReadFrom(ctx, ed, [b, BACKSPACE]) == Blocked(ed)
  {
    var next := ed.(buf := ed.buf + [ByteToChar(b)]);
    assert Step(ctx, ed, b) == Reading(next);
    assert next.buf[..|next.buf| - 1] == ed.buf;
    assert Step(ctx, next, BACKSPACE) == Reading(ed);
    ReadFromCons(ctx, ed, b, [BACKSPACE]);
    ReadFromCons(ctx, next, BACKSPACE, []);
    assert [b, BACKSPACE] == [b] + [BACKSPACE];
  }

  /** Backspace on an empty buffer changes nothing. */
  lemma BackspaceOnEmpty(ctx: Context, ed: Editor)
    requires Valid(ctx, ed) && !ed.awaitingKey && ed.buf == "" && ctx.maxLen > 0
    ensures Step(ctx, ed, BACKSPACE) == Reading(ed)
  {
  }

  /** Escape empties the buffer and unsets both cursors, from any editor
      that is not over the limit. */
  lemma EscapeResets(ctx: Context, ed: Editor)
    requires Valid(ctx, ed) && !ed.awaitingKey && |ed.buf| < ctx.maxLen
    ensures Step(ctx, ed, ESC) == Reading(Editor("", None, None, false))
  {
  }

  /** No byte sequence ever sets the prediction cursor, so Tab never
      changes the editor in a read. */
  lemma TabNeverCompletes(ctx: Context, bytes: seq<SByte>)
    requires ReadLine(ctx, bytes).Blocked?
    requires !ReadLine(ctx, bytes).ed.awaitingKey
    requires |ReadLine(ctx, bytes).ed.buf| < ctx.maxLen
    ensures Step(ctx, ReadLine(ctx, bytes).ed, TAB) == Reading(ReadLine(ctx, bytes).ed)
  {
  }

  // ----- History navigation ----------------------------------------------

  /** `m` presses of one arrow key. */
  function Presses(key: SByte, m: nat): (bs: seq<SByte>)
    ensures |bs| == 2 * m
    decreases m
  {
    if m == 0 then [] else [EXTENDED_PREFIX, key] + Presses(key, m - 1)
  }

  /** Every history entry fits in the buffer, so recalling one never
      triggers the length check on the next key. */
  predicate EntriesFit(ctx: Context)
  {
    forall i :: 0 <= i < |ctx.history| ==> |ctx.history[i]| < ctx.maxLen
  }

  /** One arrow-key press on an editor whose buffer fits. */
  lemma OnePress(ctx: Context, ed: Editor, key: SByte, tail: seq<SByte>)
    requires Valid(ctx, ed) && !ed.awaitingKey && |ed.buf| < ctx.maxLen
    ensures ReadFrom(ctx, ed, [EXTENDED_PREFIX, key] + tail)
              == ReadFrom(ctx, NavigationKey(ctx, ed, key), tail)
  {
    var s := [EXTENDED_PREFIX, key] + tail;
    assert s[0] == EXTENDED_PREFIX && s[1..][0] == key && s[1..][1..] == tail;
    assert ed.(awaitingKey := true).(awaitingKey := false) == ed;
  }

  /** The editor after the cursor has been steered from where it is to
      `k`: unchanged when it is already there (the source's `continue`
      keeps even an edited buffer), otherwise switched to entry `k`. */
  function SteerTo(ctx: Context, ed: Editor, k: nat): (r: Editor)
    requires k < |ctx.history|
    ensures ed.pHistory == Some(k) ==> r == ed
    ensures ed.pHistory != Some(k) ==> r == MoveTo(ctx, ed, k)
  {
    if ed.pHistory == Some(k) then ed else MoveTo(ctx, ed, k)
  }

  /** Pressing up `m` times from a set cursor at `j` moves it to
      `min(j + m, |history| - 1)`. If it moved, the buffer is that entry;
      if it was already at the oldest entry, the editor is as it was. */
  lemma {:induction false} UpPresses(ctx: Context, ed: Editor, m: nat)
    requires Valid(ctx, ed) && !ed.awaitingKey && |ed.buf| < ctx.maxLen
    requires EntriesFit(ctx)
    requires ed.pHistory.Some?
    ensures ReadFrom(ctx, ed, Presses(KEY_UP, m))
              == Blocked(SteerTo(ctx, ed, Min(ed.pHistory.value + m, |ctx.history| - 1)))
    decreases m
  {
    var j := ed.pHistory.value;
    if m > 0 {
      OnePress(ctx, ed, KEY_UP, Presses(KEY_UP, m - 1));
      var ed1 := NavigationKey(ctx, ed, KEY_UP);
      UpPresses(ctx, ed1, m - 1);
      if j < |ctx.history| - 1 {
        var t := Min(j + m, |ctx.history| - 1);
        assert SteerTo(ctx, ed1, t) == MoveTo(ctx, ed, t);
      }
    }
  }

  /** Pressing down `m` times from a set cursor at `j` moves it to
      `max(j - m, 0)`. If it moved, the buffer is that entry; if it was
      already at the newest entry, the editor is as it was. */
  lemma {:induction false} DownPresses(ctx: Context, ed: Editor, m: nat)
    requires Valid(ctx, ed) && !ed.awaitingKey && |ed.buf| < ctx.maxLen
    requires EntriesFit(ctx)
    requires ed.pHistory.Some?
    ensures ReadFrom(ctx, ed, Presses(KEY_DOWN, m))
              == Blocked(SteerTo(ctx, ed, Max(ed.pHistory.value - m, 0)))
    decreases m
  {
    var j := ed.pHistory.value;
    if m > 0 {
      OnePress(ctx, ed, KEY_DOWN, Presses(KEY_DOWN, m - 1));
      var ed1 := NavigationKey(ctx, ed, KEY_DOWN);
      DownPresses(ctx, ed1, m - 1);
      if j > 0 {
        var t := Max(j - m, 0);
        assert SteerTo(ctx, ed1, t) == MoveTo(ctx, ed, t);
      }
    }
  }

  /** From a fresh read, `n` presses of up recall entry `min(n, |history|) - 1`. */
  lemma UpFromFreshRead(ctx: Context, n: nat)
    requires |ctx.history| > 0 && ctx.maxLen > 0 && EntriesFit(ctx)
    requires n > 0
    ensures ReadLine(ctx, Presses(KEY_UP, n)) ==
              Blocked(Editor(ctx.history[Min(n, |ctx.history|) - 1],
                             Some(Min(n, |ctx.history|) - 1), None, false))
  {
    OnePress(ctx, Start, KEY_UP, Presses(KEY_UP, n - 1));
    var ed1 := NavigationKey(ctx, Start, KEY_UP);
    assert ed1 == Editor(ctx.history[0], Some(0), None, false);
    UpPresses(ctx, ed1, n - 1);
  }

  /** Recalling with up and then pressing Enter submits the recalled entry
      exactly as stored. */
  lemma RecallThenEnter(ctx: Context, n: nat, rest: seq<SByte>)
    requires |ctx.history| > 0 && ctx.maxLen > 0 && EntriesFit(ctx)
    requires n > 0
    ensures ReadLine(ctx, Presses(KEY_UP, n) + [ENTER] + rest)
              == Line(ctx.history[Min(n, |ctx.history|) - 1], false, rest)
  {
    var k := Min(n, |ctx.history|) - 1;
    var ups := Presses(KEY_UP, n);
    var ed := Editor(ctx.history[k], Some(k), None, false);
    UpFromFreshRead(ctx, n);
    assert ReadFrom(ctx, Start, ups) == Blocked(ed);
    ReadFromAppend(ctx, Start, ups, [ENTER] + rest);
    assert ReadFrom(ctx, Start, ups + ([ENTER] + rest)) == ReadFrom(ctx, ed, [ENTER] + rest);
    assert Step(ctx, ed, ENTER) == Finished(ctx.history[k], false);
    ReadFromCons(ctx, ed, ENTER, rest);
    assert ups + [ENTER] + rest == ups + ([ENTER] + rest);
  }
}
