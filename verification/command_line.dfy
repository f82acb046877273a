/** What the console does to a finished line before dispatch: collapse runs
    of spaces, then take the text before the first space as the command name. */
module CommandLine {
  import opened Base

  /** `s` has two spaces in a row at position `i`. */
  predicate DoubleSpaceAt(s: string, i: int)
  {
    0 <= i && i + 1 < |s| && s[i] == ' ' && s[i + 1] == ' '
  }

  /** `s` contains no `"  "` substring. */
  predicate NoDoubleSpace(s: string)
  {
    forall i :: 0 <= i < |s| - 1 ==> !DoubleSpaceAt(s, i)
  }

  /** `s.find("  ")`: the first position of two spaces, or `npos` as `None`. */
  function FindDoubleSpace(s: string): (r: Option<nat>)
    ensures r.None? <==> NoDoubleSpace(s)
    ensures r.Some? ==> DoubleSpaceAt(s, r.value)
    ensures r.Some? ==> forall j :: 0 <= j < r.value ==> !DoubleSpaceAt(s, j)
  {
    FindDoubleSpaceFrom(s, 0)
  }

  function FindDoubleSpaceFrom(s: string, from: nat): (r: Option<nat>)
    requires from <= |s|
    requires forall j :: 0 <= j < from ==> !DoubleSpaceAt(s, j)
    ensures r.None? <==> NoDoubleSpace(s)
    ensures r.Some? ==> from <= r.value && DoubleSpaceAt(s, r.value)
    ensures r.Some? ==> forall j :: 0 <= j < r.value ==> !DoubleSpaceAt(s, j)
    decreases |s| - from
  {
    if from + 1 >= |s| then
      assert forall j :: 0 <= j < |s| - 1 ==> !DoubleSpaceAt(s, j);
      None
    else if DoubleSpaceAt(s, from) then Some(from)
    else FindDoubleSpaceFrom(s, from + 1)
  }

  /** Putting `c` in front of a line without a double space keeps it so,
      unless it makes one with the first character. */
  lemma NoDoubleSpaceCons(c: char, s: string)
    requires NoDoubleSpace(s)
    requires |s| > 0 ==> !(c == ' ' && s[0] == ' ')
    ensures NoDoubleSpace([c] + s)
  {
    forall i | 0 <= i < |[c] + s| - 1
      ensures !DoubleSpaceAt([c] + s, i)
    {
      if i > 0 {
        assert !DoubleSpaceAt(s, i - 1);
      }
    }
  }

  /** Dropping the first character keeps a line free of double spaces. */
  lemma NoDoubleSpaceTail(s: string)
    requires |s| > 0 && NoDoubleSpace(s)
    ensures NoDoubleSpace(s[1..])
  {
    forall i | 0 <= i < |s[1..]| - 1
      ensures !DoubleSpaceAt(s[1..], i)
    {
      assert !DoubleSpaceAt(s, i + 1);
    }
  }

  /** `r` is `s` with some of its spaces deleted and nothing else changed. */
  predicate SpacesDeleted(s: string, r: string)
    decreases |s|
  {
    if |s| == 0 then |r| == 0
    else
      || (|r| > 0 && r[0] == s[0] && SpacesDeleted(s[1..], r[1..]))
      || (s[0] == ' ' && SpacesDeleted(s[1..], r))
  }

  /** Reference definition of the normalised line, in one left-to-right
      pass: a space is dropped exactly when the next character is a space. */
  function Collapse(s: string): (r: string)
    ensures NoDoubleSpace(r)
    ensures SpacesDeleted(s, r)
    ensures |s| > 0 ==> |r| > 0 && r[0] == s[0] && r[|r| - 1] == s[|s| - 1]
    decreases |s|
  {
    if |s| <= 1 then
      assert |s| == 1 ==> s[1..] == [];
      s
    else if s[0] == ' ' && s[1] == ' ' then Collapse(s[1..])
    else
      var rest := Collapse(s[1..]);
      NoDoubleSpaceCons(s[0], rest);
      assert ([s[0]] + rest)[1..] == rest;
      [s[0]] + rest
  }

  /** A line with no double space is its own normal form, and only such a
      line is: normalising is idempotent. */
  lemma {:induction false} CollapseFixpoint(s: string)
    ensures Collapse(s) == s <==> NoDoubleSpace(s)
    decreases |s|
  {
    if |s| > 1 && NoDoubleSpace(s) {
      NoDoubleSpaceTail(s);
      CollapseFixpoint(s[1..]);
      assert !DoubleSpaceAt(s, 0);
      assert Collapse(s) == [s[0]] + Collapse(s[1..]);
      assert s == [s[0]] + s[1..];
    }
  }

  lemma CollapseIdempotent(s: string)
    ensures Collapse(Collapse(s)) == Collapse(s)
  {
    CollapseFixpoint(Collapse(s));
  }

  /** Deleting one space of a double space does not change the normal form:
      this is the step of the source's replace loop. */
  lemma {:induction false} CollapseDropSpace(s: string, i: nat)
    requires DoubleSpaceAt(s, i)
    ensures Collapse(s[..i] + s[i + 1..]) == Collapse(s)
    decreases i
  {
    var t := s[..i] + s[i + 1..];
    if i == 0 {
      assert t == s[1..];
    } else {
      assert t[1..] == s[1..][..i - 1] + s[1..][i..];
      CollapseDropSpace(s[1..], i - 1);
      assert t[0] == s[0] && t[1] == s[1];
    }
  }

  /** Replacing the double space at `p` by one space deletes `s[p]`, and so
      keeps the normal form. */
  lemma ReplaceKeepsCollapse(s: string, p: nat)
    requires DoubleSpaceAt(s, p)
    ensures |s[..p] + " " + s[p + 2..]| < |s|
    ensures Collapse(s[..p] + " " + s[p + 2..]) == Collapse(s)
  {
    assert s[..p] + " " + s[p + 2..] == s[..p] + s[p + 1..];
    CollapseDropSpace(s, p);
  }

  /** The source's loop: while the line contains `"  "`, replace the first
      occurrence with `" "`. It computes the reference normal form. */
  method Normalize(line: string) returns (r: string)
    ensures r == Collapse(line)
    ensures NoDoubleSpace(r)
  {
    r := line;
    var pos := FindDoubleSpace(r);
    while pos.Some?
      invariant Collapse(r) == Collapse(line)
      invariant pos == FindDoubleSpace(r)
      decreases |r|
    {
      var p := pos.value;
      ReplaceKeepsCollapse(r, p);
      r := r[..p] + " " + r[p + 2..];
      pos := FindDoubleSpace(r);
    }
    CollapseFixpoint(r);
  }

  /** `cmd.find(' ')`, with `npos` read as the end of the line. */
  function FirstSpace(s: string): (k: nat)
    ensures k <= |s|
    ensures forall j :: 0 <= j < k ==> s[j] != ' '
    ensures k < |s| ==> s[k] == ' '
    decreases |s|
  {
    if |s| == 0 then 0
    else if s[0] == ' ' then 0
    else 1 + FirstSpace(s[1..])
  }

  /** `cmd.substr(0, cmd.find(' '))`: the command name is the longest prefix
      of the line without a space. */
  function CommandName(line: string): (name: string)
    ensures name <= line
    ensures forall j :: 0 <= j < |name| ==> name[j] != ' '
    ensures |name| < |line| ==> line[|name|] == ' '
  {
    line[..FirstSpace(line)]
  }

  /** Any space-free prefix that ends at a space or at the end of the line
      is the command name. */
  lemma CommandNameUnique(line: string, name: string)
    requires name <= line
    requires forall j :: 0 <= j < |name| ==> name[j] != ' '
    requires |name| < |line| ==> line[|name|] == ' '
    ensures CommandName(line) == name
  {
  }

  /** A line without spaces is left alone and is its own command name. */
  lemma SpaceFreeLine(line: string)
    requires forall j :: 0 <= j < |line| ==> line[j] != ' '
    ensures Collapse(line) == line
    ensures CommandName(Collapse(line)) == line
  {
    assert NoDoubleSpace(line);
    CollapseFixpoint(line);
    CommandNameUnique(line, line);
  }

  /** Runs of spaces are collapsed: "a    b   c" normalises to "a b c". */
  lemma NormalizeExample()
    ensures Collapse("a    b   c") == "a b c"
  {
    assert Collapse("c") == "c";
    assert Collapse(" c") == " c";
    assert Collapse("  c") == " c";
    assert Collapse("   c") == " c";
    assert Collapse("b   c") == "b c";
    assert Collapse(" b   c") == " b c";
    assert Collapse("  b   c") == " b c";
    assert Collapse("   b   c") == " b c";
    assert Collapse("    b   c") == " b c";
  }
}
