/** The command history: a `std::deque<string>` holding the most recent line
    first, together with the configured capacity `historySize`. */
module History {
  import opened Base

  datatype HistoryBuffer = HistoryBuffer(entries: seq<string>, capacity: nat)
  {
    /** The state every public operation keeps: the deque is exactly as
        long as the capacity (it is resized to it and pushes keep the size). */
    predicate Valid()
    {
      |entries| == capacity
    }
  }

  /** `count` empty strings, the padding `std::deque::resize` appends. */
  function Blanks(count: nat): (r: seq<string>)
    ensures |r| == count
    ensures forall i :: 0 <= i < count ==> r[i] == ""
  {
    seq(count, _ => "")
  }

  /** `std::deque::resize(n)`: keep the first `n` entries, or pad at the
      back with empty strings. */
  function Resize(entries: seq<string>, n: nat): (r: seq<string>)
    ensures |r| == n
    ensures forall i :: 0 <= i < n && i < |entries| ==> r[i] == entries[i]
    ensures forall i :: |entries| <= i < n ==> r[i] == ""
  {
    if n <= |entries| then entries[..n] else entries + Blanks(n - |entries|)
  }

  /** The constructor: `history.resize(historySize)` on an empty deque. */
  function Create(capacity: nat): (h: HistoryBuffer)
    ensures h.Valid() && h.capacity == capacity
    ensures forall i :: 0 <= i < capacity ==> h.entries[i] == ""
  {
    HistoryBuffer(Resize([], capacity), capacity)
  }

  /** `setHistorySize`: the capacity changes and the deque is resized to it,
      so shrinking drops the oldest entries (those at the back). */
  function SetHistorySize(h: HistoryBuffer, size: nat): (r: HistoryBuffer)
    ensures r.Valid() && r.capacity == size
    ensures size <= |h.entries| ==> r.entries == h.entries[..size]
    ensures |h.entries| <= size ==> r.entries[..|h.entries|] == h.entries
    ensures forall i :: |h.entries| <= i < size ==> r.entries[i] == ""
  {
    HistoryBuffer(Resize(h.entries, size), size)
  }

  /** `getHistory(id)`: `history.at(id)`, which throws when `id` is out of range. */
  function GetHistory(h: HistoryBuffer, id: nat): (r: Option<string>)
    ensures r.None? <==> id >= |h.entries|
    ensures r.Some? ==> r.value == h.entries[id]
  {
    if id < |h.entries| then Some(h.entries[id]) else None
  }

  /** `getHistorySize`: the number of stored entries, not the capacity. */
  function GetHistorySize(h: HistoryBuffer): (n: nat)
    ensures h.Valid() ==> n == h.capacity
    ensures n > 0 <==> GetHistory(h, 0).Some?
  {
    |h.entries|
  }

  /** The push exactly as written: when the deque is full pop its back, then
      insert at the front. `None` marks the one undefined case, `pop_back`
      on an empty deque, reached when the capacity is 0. */
  function PushAsWritten(h: HistoryBuffer, line: string): (r: Option<HistoryBuffer>)
    ensures r.None? <==> |h.entries| == h.capacity == 0
    ensures r.Some? ==> r.value.capacity == h.capacity && |r.value.entries| > 0 && r.value.entries[0] == line
  {
    if |h.entries| == h.capacity then
      if |h.entries| == 0 then None
      else Some(h.(entries := [line] + h.entries[..|h.entries| - 1]))
    else
      Some(h.(entries := [line] + h.entries))
  }

  /** The push the console uses: as written, except that a history of
      capacity 0 records nothing instead of popping an empty deque. */
  function Push(h: HistoryBuffer, line: string): (r: HistoryBuffer)
    ensures r.capacity == h.capacity
    ensures h.Valid() ==> r.Valid()
    ensures h.Valid() && h.capacity > 0 ==>
              r.entries[0] == line
              && forall i :: 0 <= i < h.capacity - 1 ==> r.entries[i + 1] == h.entries[i]
    ensures |h.entries| < h.capacity ==> r.entries == [line] + h.entries
  {
    if |h.entries| == h.capacity then
      if |h.entries| == 0 then h
      else h.(entries := [line] + h.entries[..|h.entries| - 1])
    else
      h.(entries := [line] + h.entries)
  }

  /** Wherever the code as written is defined, the console's push agrees with it. */
  lemma PushAgreesWithSource(h: HistoryBuffer, line: string)
    requires PushAsWritten(h, line).Some?
    ensures PushAsWritten(h, line) == Some(Push(h, line))
  {
  }

  /** The undefined case is reachable through the public interface: resize
      the history to 0 and submit any line. */
  lemma ZeroCapacityPushUndefined(line: string)
    ensures PushAsWritten(SetHistorySize(Create(10), 0), line).None?
  {
  }

  /** A push is a bounded prepend: the new line first, then the previous
      entries, cut to the capacity (the oldest entry falls off the back). */
  lemma PushIsBoundedPrepend(h: HistoryBuffer, line: string)
    requires h.Valid()
    ensures Push(h, line).entries == ([line] + h.entries)[..h.capacity]
  {
    if h.capacity > 0 {
      assert h.entries[..|h.entries| - 1] == ([line] + h.entries)[1..h.capacity];
    }
  }

  function Reverse(s: seq<string>): (r: seq<string>)
    ensures |r| == |s|
    ensures forall i :: 0 <= i < |s| ==> r[i] == s[|s| - 1 - i]
  {
    if |s| == 0 then [] else Reverse(s[1..]) + [s[0]]
  }

  /** Several lines submitted one after another, first to last. */
  function PushAll(h: HistoryBuffer, lines: seq<string>): (r: HistoryBuffer)
    ensures r.capacity == h.capacity
    ensures h.Valid() ==> r.Valid()
    decreases |lines|
  {
    if |lines| == 0 then h else PushAll(Push(h, lines[0]), lines[1..])
  }

  /** After any sequence of pushes the history holds the most recent
      `capacity` lines, newest first, followed by what was there before. */
  lemma {:induction false} PushAllKeepsNewest(h: HistoryBuffer, lines: seq<string>)
    requires h.Valid()
    ensures PushAll(h, lines).entries == (Reverse(lines) + h.entries)[..h.capacity]
    decreases |lines|
  {
    if |lines| > 0 {
      var h1 := Push(h, lines[0]);
      PushIsBoundedPrepend(h, lines[0]);
      PushAllKeepsNewest(h1, lines[1..]);
      var n := h.capacity;
      var a := Reverse(lines[1..]);
      assert Reverse(lines) == a + [lines[0]];
      calc {
        PushAll(h, lines).entries;
        (a + h1.entries)[..n];
        (a + ([lines[0]] + h.entries)[..n])[..n];
        { assert forall i :: 0 <= i < n ==>
            (a + ([lines[0]] + h.entries)[..n])[i] == (a + [lines[0]] + h.entries)[i]; }
        (a + [lines[0]] + h.entries)[..n];
      }
    }
  }
}
