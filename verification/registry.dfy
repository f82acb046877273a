/** The command registry (`std::vector<Command*>`) and the dispatch scan of
    the console loop. A command is its pointer identity and its name; what
    its `excute` does is not part of this model. */
module Registry {
  import opened Base

  datatype Command = Command(handle: nat, name: string)

  type Registry = seq<Command>

  /** No pointer is registered twice. */
  predicate DistinctHandles(reg: Registry)
  {
    forall i, j :: 0 <= i < j < |reg| ==> reg[i].handle != reg[j].handle
  }

  /** One pointer is one object: two entries with the same handle have the
      same name. Every registry built from real `Command*` values is so. */
  predicate ConsistentHandles(reg: Registry)
  {
    forall i, j :: 0 <= i < |reg| && 0 <= j < |reg| && reg[i].handle == reg[j].handle ==>
      reg[i].name == reg[j].name
  }

  /** No registered command is called `name`. */
  predicate NoMatch(reg: Registry, name: string)
  {
    forall j :: 0 <= j < |reg| ==> reg[j].name != name
  }

  /** `addCommand`: append in registration order. */
  function AddCommand(reg: Registry, c: Command): (r: Registry)
    ensures |r| == |reg| + 1 && r[|reg|] == c
    ensures r[..|reg|] == reg
  {
    reg + [c]
  }

  /** `getCommand(name)`: the index of the first command whose name equals
      `name` exactly, or `None` for `nullptr`. */
  function GetCommandByName(reg: Registry, name: string): (r: Option<nat>)
    ensures r.None? <==> NoMatch(reg, name)
    ensures r.Some? ==> r.value < |reg| && reg[r.value].name == name
    ensures r.Some? ==> forall j :: 0 <= j < r.value ==> reg[j].name != name
  {
    FindFrom(reg, name, 0)
  }

  function FindFrom(reg: Registry, name: string, i: nat): (r: Option<nat>)
    requires i <= |reg|
    requires forall j :: 0 <= j < i ==> reg[j].name != name
    ensures r.None? <==> NoMatch(reg, name)
    ensures r.Some? ==> i <= r.value < |reg| && reg[r.value].name == name
    ensures r.Some? ==> forall j :: 0 <= j < r.value ==> reg[j].name != name
    decreases |reg| - i
  {
    if i == |reg| then None
    else if reg[i].name == name then Some(i)
    else FindFrom(reg, name, i + 1)
  }

  /** `getCommand(id)`: `command.at(id)`, which throws when `id` is out of range. */
  function GetCommandById(reg: Registry, id: nat): (r: Option<Command>)
    ensures r.None? <==> id >= |reg|
    ensures r.Some? ==> r.value == reg[id]
  {
    if id < |reg| then Some(reg[id]) else None
  }

  /** Registering a command never changes which command an existing name
      finds: the earliest registration wins. A name that found nothing finds
      the new command exactly when it is the new command's name. */
  lemma AddCommandKeepsLookup(reg: Registry, c: Command, name: string)
    ensures GetCommandByName(reg, name).Some? ==>
              GetCommandByName(AddCommand(reg, c), name) == GetCommandByName(reg, name)
    ensures GetCommandByName(reg, name).None? ==>
              GetCommandByName(AddCommand(reg, c), name) ==
                (if c.name == name then Some(|reg|) else None)
  {
    var r := AddCommand(reg, c);
    match GetCommandByName(reg, name)
    case Some(i) =>
      assert r[i] == reg[i];
    case None =>
      if c.name != name {
        assert forall j :: 0 <= j < |r| ==> r[j].name != name by {
          forall j | 0 <= j < |r| ensures r[j].name != name {
            if j < |reg| { assert r[j] == reg[j]; }
          }
        }
      }
  }

  /** How many of the entries `lo` up to `hi` hold the same pointer as the
      last entry, `command.back()`. */
  function LastPointerCount(reg: Registry, lo: nat, hi: nat): (n: nat)
    requires lo <= hi <= |reg|
    ensures n <= hi - lo
    decreases hi - lo
  {
    if lo == hi then 0
    else (if reg[lo].handle == reg[|reg| - 1].handle then 1 else 0) + LastPointerCount(reg, lo + 1, hi)
  }

  /** The scan exactly as written: walk the commands in order; on a name
      match execute it and stop; otherwise, when the current pointer equals
      `command.back()`, report an unknown command. So every event but the
      last is an unknown-command report: one per entry before the first
      match (or in the whole registry) that holds the last pointer, and
      the first match, if any, is executed at the end. */
  function DispatchAsWritten(reg: Registry, name: string): (events: seq<Event>)
    ensures forall k: nat :: Executed(k) in events <==> GetCommandByName(reg, name) == Some(k)
    ensures forall j :: 0 <= j < |events| - 1 ==> events[j] == UnknownCommandReported
    ensures GetCommandByName(reg, name).Some? ==>
              var k := GetCommandByName(reg, name).value;
              |events| == LastPointerCount(reg, 0, k) + 1 && events[|events| - 1] == Executed(k)
    ensures NoMatch(reg, name) ==>
              |events| == LastPointerCount(reg, 0, |reg|)
              && forall e | e in events :: e == UnknownCommandReported
    ensures |reg| > 0 && NoMatch(reg, name) ==> UnknownCommandReported in events
  {
    match GetCommandByName(reg, name)
    case Some(k) => ScanUpToMatch(reg, name, 0, k); ScanReportsFirst(reg, name, 0); ScanFrom(reg, name, 0)
    case None =>
      ScanWithoutMatch(reg, name, 0);
      var events := ScanFrom(reg, name, 0);
      assert forall j :: 0 <= j < |events| ==> events[j] in events;
      events
  }

  function ScanFrom(reg: Registry, name: string, i: nat): (events: seq<Event>)
    requires i <= |reg|
    ensures (forall j :: i <= j < |reg| ==> reg[j].name != name) ==>
              forall e | e in events :: e == UnknownCommandReported
    ensures i < |reg| && (forall j :: i <= j < |reg| ==> reg[j].name != name) ==>
              UnknownCommandReported in events
    decreases |reg| - i
  {
    if i == |reg| then []
    else if reg[i].name == name then [Executed(i)]
    else
      var report := if reg[i].handle == reg[|reg| - 1].handle then [UnknownCommandReported] else [];
      report + ScanFrom(reg, name, i + 1)
  }

  /** Reports put in front of events that are reports but for the last one
      keep that shape and that last event. */
  lemma ReportsThenTail(report: seq<Event>, rest: seq<Event>)
    requires report == [] || report == [UnknownCommandReported]
    requires forall j :: 0 <= j < |rest| - 1 ==> rest[j] == UnknownCommandReported
    ensures var all := report + rest;
            |all| == |report| + |rest|
            && (|rest| > 0 ==> all[|all| - 1] == rest[|rest| - 1])
            && forall j :: 0 <= j < |all| - 1 ==> all[j] == UnknownCommandReported
  {
    var all := report + rest;
    forall j | 0 <= j < |all| - 1
      ensures all[j] == UnknownCommandReported
    {
      if j >= |report| {
        assert all[j] == rest[j - |report|];
      }
    }
  }

  /** Only the last event of a scan can be an execution. */
  lemma {:induction false} ScanReportsFirst(reg: Registry, name: string, i: nat)
    requires i <= |reg|
    ensures forall j :: 0 <= j < |ScanFrom(reg, name, i)| - 1 ==>
              ScanFrom(reg, name, i)[j] == UnknownCommandReported
    decreases |reg| - i
  {
    if i < |reg| && reg[i].name != name {
      var report := if reg[i].handle == reg[|reg| - 1].handle then [UnknownCommandReported] else [];
      var rest := ScanFrom(reg, name, i + 1);
      ScanReportsFirst(reg, name, i + 1);
      assert ScanFrom(reg, name, i) == report + rest;
      ReportsThenTail(report, rest);
    }
  }

  /** The scan from `i` up to the first match `k`: one unknown-command
      report per entry before `k` holding the last pointer, then `k` runs. */
  lemma {:induction false} ScanUpToMatch(reg: Registry, name: string, i: nat, k: nat)
    requires i <= k < |reg| && reg[k].name == name
    requires forall j :: i <= j < k ==> reg[j].name != name
    ensures var events := ScanFrom(reg, name, i);
            |events| == LastPointerCount(reg, i, k) + 1 && events[|events| - 1] == Executed(k)
    decreases k - i
  {
    if i < k {
      ScanUpToMatch(reg, name, i + 1, k);
      ScanReportsFirst(reg, name, i + 1);
      var report := if reg[i].handle == reg[|reg| - 1].handle then [UnknownCommandReported] else [];
      var rest := ScanFrom(reg, name, i + 1);
      assert ScanFrom(reg, name, i) == report + rest;
      ReportsThenTail(report, rest);
    }
  }

  /** The scan from `i` with no match left: one unknown-command report per
      remaining entry holding the last pointer. */
  lemma {:induction false} ScanWithoutMatch(reg: Registry, name: string, i: nat)
    requires i <= |reg|
    requires forall j :: i <= j < |reg| ==> reg[j].name != name
    ensures |ScanFrom(reg, name, i)| == LastPointerCount(reg, i, |reg|)
    decreases |reg| - i
  {
    if i < |reg| {
      ScanWithoutMatch(reg, name, i + 1);
    }
  }

  /** The dispatch the console uses: run the first command with a matching
      name; with no match, report once if anything is registered. */
  function Dispatch(reg: Registry, name: string): (events: seq<Event>)
    ensures |events| <= 1
    ensures events == [UnknownCommandReported] <==> |reg| > 0 && NoMatch(reg, name)
    ensures events == [] <==> |reg| == 0
    ensures forall i: nat :: events == [Executed(i)] <==>
              i < |reg| && reg[i].name == name && forall j :: 0 <= j < i ==> reg[j].name != name
  {
    match GetCommandByName(reg, name)
    case Some(i) => [Executed(i)]
    case None => if |reg| == 0 then [] else [UnknownCommandReported]
  }

  /** Without a pointer registered twice, the scan as written behaves
      exactly like the found-flag dispatch. */
  lemma {:induction false} ScanAgreesWithDispatch(reg: Registry, name: string, i: nat)
    requires DistinctHandles(reg)
    requires i < |reg| || i == |reg| == 0
    requires forall j :: 0 <= j < i ==> reg[j].name != name
    ensures ScanFrom(reg, name, i) == Dispatch(reg, name)
    decreases |reg| - i
  {
    if i < |reg| && reg[i].name != name {
      if i < |reg| - 1 {
        ScanAgreesWithDispatch(reg, name, i + 1);
        assert reg[i].handle != reg[|reg| - 1].handle;
      } else {
        assert NoMatch(reg, name);
      }
    }
  }

  lemma DispatchAsWrittenAgrees(reg: Registry, name: string)
    requires DistinctHandles(reg)
    ensures DispatchAsWritten(reg, name) == Dispatch(reg, name)
  {
    ScanAgreesWithDispatch(reg, name, 0);
  }

  /** The same pointer registered twice: an unknown name is reported once
      per registration of the last pointer. */
  lemma DuplicateRegistrationReportsTwice(reg: Registry)
    requires reg == [Command(7, "help"), Command(7, "help")]
    ensures ConsistentHandles(reg)
    ensures DispatchAsWritten(reg, "ls") == [UnknownCommandReported, UnknownCommandReported]
    ensures Dispatch(reg, "ls") == [UnknownCommandReported]
  {
  }

  /** The last pointer also registered earlier: a name that does match is
      reported unknown before it runs. */
  lemma ReportBeforeMatch(reg: Registry)
    requires reg == [Command(1, "x"), Command(2, "echo"), Command(1, "x")]
    ensures ConsistentHandles(reg)
    ensures DispatchAsWritten(reg, "echo") == [UnknownCommandReported, Executed(1)]
    ensures Dispatch(reg, "echo") == [Executed(1)]
  {
    assert reg[0].name != "echo" && reg[1].name == "echo";
    assert GetCommandByName(reg, "echo") == Some(1);
    assert ScanFrom(reg, "echo", 1) == [Executed(1)];
    assert ScanFrom(reg, "echo", 0) == [UnknownCommandReported] + [Executed(1)];
  }
}
