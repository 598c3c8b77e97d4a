/** Locating the `commands:` map of a lefthook configuration
    (scripts/install_workspace_hooks.py, `find_commands_map` and `end_of_commands_map`). */
module CommandsMap {
  import opened Text
  import opened Forest

  /** First index at or after `i` whose line satisfies `p`, or the number of lines. */
  function Scan(lines: seq<string>, i: nat, p: string -> bool): (k: nat)
    requires i <= |lines|
    ensures i <= k <= |lines|
    ensures forall j | i <= j < k :: !p(lines[j])
    ensures k < |lines| ==> p(lines[k])
    decreases |lines| - i
  {
    if i == |lines| || p(lines[i]) then i else Scan(lines, i + 1, p)
  }

  predicate TopLevel(line: string) {
    line != "" && !IsSpace(line[0])
  }

  function OpensPreCommit(): string -> bool {
    line => StartsWith(line, "pre-commit:")
  }

  /** The search inside `pre-commit:` stops at the next top-level line or at `commands:`. */
  function StopsSearch(): string -> bool {
    line => TopLevel(line) || Strip(line) == "commands:"
  }

  function HasText(): string -> bool {
    line => !Blank(line)
  }

  /** Every non-blank line counts, comments included. */
  function ClosesMap(depth: nat): string -> bool {
    line => !Blank(line) && Indent(line) <= depth
  }

  /** The line of `commands:` and the number of spaces before one of its entries. */
  datatype Place = Place(commands: nat, entry: nat)

  function EntryIndent(lines: seq<string>, c: nat): (e: nat)
    requires c < |lines|
    ensures e > Indent(lines[c])
  {
    var depth := Indent(lines[c]);
    var k := Scan(lines, c + 1, HasText());
    if k < |lines| && Indent(lines[k]) > depth then Indent(lines[k]) else depth + 2
  }

  function Locate(lines: seq<string>): (r: Option<Place>)
    ensures r.Some? ==>
              && r.value.commands < |lines|
              && Strip(lines[r.value.commands]) == "commands:"
              && !Blank(lines[r.value.commands])
              && Indent(lines[r.value.commands]) > 0
              && r.value.entry > Indent(lines[r.value.commands])
  {
    var start := Scan(lines, 0, OpensPreCommit());
    if start == |lines| then None
    else
      var c := Scan(lines, start + 1, StopsSearch());
      if c == |lines| || TopLevel(lines[c]) then None
      else
        IndentedLine(lines[c]);
        Some(Place(c, EntryIndent(lines, c)))
  }

  lemma IndentedLine(line: string)
    requires !TopLevel(line) && !Blank(line)
    ensures Indent(line) > 0
  {
    var pre, post := StripShape(line);
  }

  /** One past the last line of the map opened at `c`, trailing blank lines included. */
  function MapEnd(lines: seq<string>, c: nat): (end: nat)
    requires c < |lines|
    ensures c < end <= |lines|
  {
    Scan(lines, c + 1, ClosesMap(Indent(lines[c])))
  }

  /** `end_of_commands_map`: where the managed block goes. */
  function InsertAt(lines: seq<string>, c: nat): (k: nat)
    requires c < |lines|
    ensures c < k <= MapEnd(lines, c)
  {
    TrimBlank(lines, c + 1, MapEnd(lines, c))
  }

  // ---------------------------------------------------------------- the loops

  /** The first loop: the `pre-commit:` line, or the number of lines. */
  method FindPreCommit(lines: seq<string>) returns (start: nat)
    ensures start == Scan(lines, 0, OpensPreCommit())
  {
    start := 0;
    while start < |lines| && !StartsWith(lines[start], "pre-commit:")
      invariant 0 <= start <= |lines|
      invariant Scan(lines, 0, OpensPreCommit()) == Scan(lines, start, OpensPreCommit())
    {
      start := start + 1;
    }
  }

  /** The second loop: `commands:` inside the section, unless another section comes first. */
  method FindCommands(lines: seq<string>, start: nat) returns (commands: Option<nat>)
    requires start < |lines|
    ensures var c := Scan(lines, start + 1, StopsSearch());
            commands == if c == |lines| || TopLevel(lines[c]) then None else Some(c)
  {
    var i := start + 1;
    while i < |lines|
      invariant start < i <= |lines|
      invariant Scan(lines, start + 1, StopsSearch()) == Scan(lines, i, StopsSearch())
    {
      if lines[i] != "" && !IsSpace(lines[i][0]) {
        return None;
      }
      if Strip(lines[i]) == "commands:" {
        return Some(i);
      }
      i := i + 1;
    }
    commands := None;
  }

  /** The third loop: the entry indent is the first entry's, when the map has one. */
  method ReadEntryIndent(lines: seq<string>, commands: nat) returns (entry: nat)
    requires commands < |lines|
    ensures entry == EntryIndent(lines, commands)
  {
    var mapIndent := Indent(lines[commands]);
    entry := mapIndent + 2;
    var i := commands + 1;
    while i < |lines|
      invariant commands < i <= |lines| && entry == mapIndent + 2
      invariant Scan(lines, commands + 1, HasText()) == Scan(lines, i, HasText())
    {
      if !Blank(lines[i]) {
        var indent := Indent(lines[i]);
        if indent > mapIndent {
          entry := indent;
        }
        break;
      }
      i := i + 1;
    }
  }

  method FindCommandsMap(lines: seq<string>) returns (r: Option<Place>)
    ensures r == Locate(lines)
  {
    var start := FindPreCommit(lines);
    if start == |lines| {
      return None;
    }
    var commands := FindCommands(lines, start);
    if commands.None? {
      return None;
    }
    var entry := ReadEntryIndent(lines, commands.value);
    r := Some(Place(commands.value, entry));
  }

  method EndOfCommandsMap(lines: seq<string>, commandsIndex: nat) returns (end: nat)
    requires commandsIndex < |lines|
    ensures end == InsertAt(lines, commandsIndex)
  {
    var mapIndent := Indent(lines[commandsIndex]);
    end := |lines|;
    var i := commandsIndex + 1;
    while i < |lines|
      invariant commandsIndex < i <= |lines| && end == |lines|
      invariant MapEnd(lines, commandsIndex) == Scan(lines, i, ClosesMap(mapIndent))
    {
      if !Blank(lines[i]) && Indent(lines[i]) <= mapIndent {
        end := i;
        break;
      }
      i := i + 1;
    }
    assert end == MapEnd(lines, commandsIndex);
    while end > commandsIndex + 1 && Blank(lines[end - 1])
      invariant commandsIndex < end <= |lines|
      invariant InsertAt(lines, commandsIndex) == TrimBlank(lines, commandsIndex + 1, end)
    {
      end := end - 1;
    }
  }

  // ---------------------------------------------------------------- what was located

  lemma InsertAtFacts(lines: seq<string>, c: nat)
    requires c < |lines|
    ensures var k := InsertAt(lines, c);
            && (forall j | k <= j < MapEnd(lines, c) :: Blank(lines[j]))
            && (k > c + 1 ==> !Blank(lines[k - 1]))
  {
    hide Blank, MapEnd, TrimBlank;
  }

  /** A line with text that is under another. */
  ghost predicate Under(lines: seq<string>, i: nat, root: nat) {
    i < |lines| && !Blank(lines[i]) && Descends(OutlineOf(lines), i, root)
  }

  ghost predicate IsParent(lines: seq<string>, p: nat, i: nat) {
    i < |lines| && OutlineOf(lines)[i].Some? && Parent(OutlineOf(lines), i) == p
  }

  lemma UnderIff(lines: seq<string>, i: nat, c: nat)
    requires c < |lines| && !Blank(lines[c]) && i < |lines| && !Blank(lines[i])
    ensures Under(lines, i, c) <==> c < i < MapEnd(lines, c)
  {
    hide Strip, Indent, Blank, Descends, MapEnd, OutlineOf;
    MapIsDescendants(lines, c, i);
  }

  /** The block goes just after the last line with text under `commands:`, or just after
      `commands:` itself when there is none. */
  lemma InsertsAfterLast(lines: seq<string>, c: nat)
    requires c < |lines| && !Blank(lines[c])
    ensures var k := InsertAt(lines, c);
            && !Blank(lines[k - 1]) && (k - 1 == c || Under(lines, k - 1, c))
            && forall i: nat | k <= i :: !Under(lines, i, c)
  {
    hide Blank, Under, MapEnd, InsertAt;
    var k := InsertAt(lines, c);
    InsertAtFacts(lines, c);
    if k - 1 != c {
      UnderIff(lines, k - 1, c);
    }
    forall i: nat | k <= i ensures !Under(lines, i, c) {
      BeyondIsNotUnder(lines, c, i);
    }
  }

  lemma BeyondIsNotUnder(lines: seq<string>, c: nat, i: nat)
    requires c < |lines| && !Blank(lines[c]) && InsertAt(lines, c) <= i
    ensures !Under(lines, i, c)
  {
    hide Strip, Indent, MapEnd, InsertAt, Descends;
    InsertAtFacts(lines, c);
    if i < |lines| && !Blank(lines[i]) {
      UnderIff(lines, i, c);
    }
  }

  /** The map the code delimits is the set of descendants of its `commands:` line:
      nothing below `commands:` is missed and nothing outside is taken for an entry. */
  lemma MapIsDescendants(lines: seq<string>, c: nat, i: nat)
    requires c < |lines| && !Blank(lines[c]) && i < |lines| && !Blank(lines[i])
    ensures Descends(OutlineOf(lines), i, c) <==> c < i < MapEnd(lines, c)
  {
    MapIsRegion(lines, c);
    RegionIsDescendants(OutlineOf(lines), c, MapEnd(lines, c), i);
  }

  lemma MapIsRegion(lines: seq<string>, c: nat)
    requires c < |lines| && !Blank(lines[c])
    ensures IsRegion(OutlineOf(lines), c, MapEnd(lines, c))
  {
    var depth := Indent(lines[c]);
    var end := MapEnd(lines, c);
    assert forall j | c + 1 <= j < end :: !ClosesMap(depth)(lines[j]);
    assert end < |lines| ==> ClosesMap(depth)(lines[end]);
  }

  lemma ScanIs(lines: seq<string>, i: nat, p: string -> bool, k: nat)
    requires i <= k <= |lines|
    requires forall j | i <= j < k :: !p(lines[j])
    requires k < |lines| ==> p(lines[k])
    ensures Scan(lines, i, p) == k
  {
  }

  lemma TopLevelIsOutermost(line: string)
    ensures TopLevel(line) <==> !Blank(line) && Indent(line) == 0
  {
    var pre, post := StripShape(line);
    BlankIsAllSpace(line);
    assert pre != "" ==> IsSpace(line[0]);
    if !Blank(line) && Indent(line) == 0 {
      assert line[0] == Strip(line)[0];
    }
  }

  /** Everything up to the next top-level line is under a top-level line. */
  lemma SectionIsRegion(lines: seq<string>, start: nat, end: nat)
    requires start < end <= |lines| && TopLevel(lines[start])
    requires forall j | start < j < end :: !TopLevel(lines[j])
    requires end < |lines| ==> TopLevel(lines[end])
    ensures IsRegion(OutlineOf(lines), start, end)
  {
    hide TopLevel, Blank, Indent;
    forall j | start <= j < |lines| ensures TopLevel(lines[j]) <==> !Blank(lines[j]) && Indent(lines[j]) == 0 {
      TopLevelIsOutermost(lines[j]);
    }
  }

  lemma OpensAtTop(line: string)
    requires OpensPreCommit()(line)
    ensures TopLevel(line)
  {
    assert line[0] == "pre-commit:"[0] == 'p';
  }

  function IsTopLevel(): string -> bool {
    line => TopLevel(line)
  }

  /** The section is the first line that begins with `pre-commit:`. The search succeeds
      exactly when there is one and some `commands:` line is under it, and it finds the first
      one that is. */
  lemma LocatesExactly(lines: seq<string>, s: nat)
    requires s <= |lines| && forall j | 0 <= j < s :: !("pre-commit:" <= lines[j])
    requires s < |lines| ==> "pre-commit:" <= lines[s]
    ensures var o := OutlineOf(lines);
            && (Locate(lines).Some? <==>
                  s < |lines| && exists c | 0 <= c < |lines| ::
                    Strip(lines[c]) == "commands:" && !Blank(lines[c]) && Descends(o, c, s))
            && (Locate(lines).Some? ==>
                  var c := Locate(lines).value.commands;
                  && s < c && Strip(lines[c]) == "commands:" && !Blank(lines[c]) && Descends(o, c, s)
                  && forall i | s < i < c :: Strip(lines[i]) != "commands:")
  {
    hide Strip, Blank, Descends, OutlineOf, Locate, Scan;
    ScanIs(lines, 0, OpensPreCommit(), s);
    SearchesSection(lines);
  }

  lemma SearchesSection(lines: seq<string>)
    ensures var start := Scan(lines, 0, OpensPreCommit());
            var o := OutlineOf(lines);
            && (Locate(lines).Some? <==>
                  start < |lines| && exists c | 0 <= c < |lines| ::
                    Strip(lines[c]) == "commands:" && !Blank(lines[c]) && Descends(o, c, start))
            && (Locate(lines).Some? ==>
                  var c := Locate(lines).value.commands;
                  && start < c && Descends(o, c, start)
                  && forall i | start < i < c :: Strip(lines[i]) != "commands:")
  {
    hide Scan, Locate, OpensPreCommit, IsTopLevel, Strip, Blank, Descends, IsRegion, OutlineOf;
    var start := Scan(lines, 0, OpensPreCommit());
    if start < |lines| {
      var end := Scan(lines, start + 1, IsTopLevel());
      var o := OutlineOf(lines);
      LocateStops(lines);
      forall c | 0 <= c < |lines| && !Blank(lines[c])
        ensures o[c].Some? && (Descends(o, c, start) <==> start < c < end)
      {
        OutlineAt(lines, c);
        RegionIsDescendants(o, start, end, c);
      }
    } else {
      NoSection(lines);
    }
  }

  lemma OutlineAt(lines: seq<string>, i: nat)
    requires i < |lines|
    ensures OutlineOf(lines)[i] == if Blank(lines[i]) then None else Some(Indent(lines[i]))
  {
  }

  lemma NoSection(lines: seq<string>)
    requires Scan(lines, 0, OpensPreCommit()) == |lines|
    ensures Locate(lines).None?
  {
    hide Strip, Indent, Blank, EntryIndent;
  }

  lemma LocateStops(lines: seq<string>)
    requires Scan(lines, 0, OpensPreCommit()) < |lines|
    ensures var start := Scan(lines, 0, OpensPreCommit());
            var end := Scan(lines, start + 1, IsTopLevel());
            && IsRegion(OutlineOf(lines), start, end)
            && (Locate(lines).Some? ==>
                  var c := Locate(lines).value.commands;
                  && start < c < end && Strip(lines[c]) == "commands:" && !Blank(lines[c])
                  && forall i | start < i < c :: Strip(lines[i]) != "commands:")
            && (Locate(lines).None? ==> forall i | start < i < end :: Strip(lines[i]) != "commands:")
  {
    hide Strip, TopLevel, Indent, Blank, EntryIndent, IsRegion;
    hide OutlineOf, OpensPreCommit, IsTopLevel, StopsSearch, Locate;
    var start := Scan(lines, 0, OpensPreCommit());
    OpensAtTop(lines[start]);
    SearchStops(lines, start + 1);
    LocateIs(lines);
    SectionIsRegion(lines, start, Scan(lines, start + 1, IsTopLevel()));
  }

  lemma LocateIs(lines: seq<string>)
    requires Scan(lines, 0, OpensPreCommit()) < |lines|
    ensures var stop := Scan(lines, Scan(lines, 0, OpensPreCommit()) + 1, StopsSearch());
            && (Locate(lines).Some? <==> stop < |lines| && !TopLevel(lines[stop]))
            && (Locate(lines).Some? ==> Locate(lines).value.commands == stop)
  {
    hide Strip, TopLevel, Indent, Blank, EntryIndent;
  }

  /** The search stops at the first `commands:` line of the section, or at its end. */
  lemma SearchStops(lines: seq<string>, i: nat)
    requires i <= |lines|
    ensures var end, stop := Scan(lines, i, IsTopLevel()), Scan(lines, i, StopsSearch());
            && stop <= end
            && (forall j | i <= j < end :: !TopLevel(lines[j]))
            && (end < |lines| ==> TopLevel(lines[end]))
            && (forall j | i <= j < stop :: Strip(lines[j]) != "commands:")
            && (stop < end ==> !TopLevel(lines[stop]) && Strip(lines[stop]) == "commands:" && !Blank(lines[stop]))
  {
    hide Strip, TopLevel;
    var end, stop := Scan(lines, i, IsTopLevel()), Scan(lines, i, StopsSearch());
    assert forall j | i <= j < end :: !IsTopLevel()(lines[j]);
    assert end < |lines| ==> IsTopLevel()(lines[end]);
    assert forall j | i <= j < stop :: !StopsSearch()(lines[j]);
    assert stop < |lines| ==> StopsSearch()(lines[stop]);
  }

  /** The entry indent is that of the first line under `commands:`. */
  lemma EntryIsFirstDescendant(lines: seq<string>, i: nat)
    requires Locate(lines).Some? && i < |lines| && !Blank(lines[i])
    requires Descends(OutlineOf(lines), i, Locate(lines).value.commands)
    requires forall j | Locate(lines).value.commands < j < i :: Blank(lines[j])
    ensures Locate(lines).value.entry == Indent(lines[i])
  {
    hide Strip, Indent, MapEnd, Scan, OutlineOf, Descends, EntryIndent;
    var c := Locate(lines).value.commands;
    EntryIsRead(lines);
    MapIsDescendants(lines, c, i);
    EntryFromFirst(lines, c);
    assert Scan(lines, c + 1, HasText()) == i;
  }

  /** With nothing under `commands:` it is two more than that of `commands:`. */
  lemma EntryOfEmptyMap(lines: seq<string>)
    requires Locate(lines).Some?
    requires forall i | 0 <= i < |lines| && !Blank(lines[i]) ::
               !Descends(OutlineOf(lines), i, Locate(lines).value.commands)
    ensures var p := Locate(lines).value; p.entry == Indent(lines[p.commands]) + 2
  {
    hide Strip, Indent, MapEnd, Scan, OutlineOf, Descends, EntryIndent;
    var c := Locate(lines).value.commands;
    EntryIsRead(lines);
    var first := Scan(lines, c + 1, HasText());
    EntryFromFirst(lines, c);
    if first < MapEnd(lines, c) {
      MapIsDescendants(lines, c, first);
    }
  }

  lemma EntryIsRead(lines: seq<string>)
    requires Locate(lines).Some?
    ensures Locate(lines).value.entry == EntryIndent(lines, Locate(lines).value.commands)
  {
    hide Strip, Indent, Blank, EntryIndent, Scan;
  }

  lemma EntryFromFirst(lines: seq<string>, c: nat)
    requires c < |lines|
    ensures var end := MapEnd(lines, c);
            var first := Scan(lines, c + 1, HasText());
            && c < first <= |lines|
            && (forall j | c < j < first :: Blank(lines[j]))
            && (first < end ==> !Blank(lines[first]) && EntryIndent(lines, c) == Indent(lines[first]))
            && (first >= end ==> EntryIndent(lines, c) == Indent(lines[c]) + 2)
  {
    hide Strip, Indent, Blank;
    var end := MapEnd(lines, c);
    var depth := Indent(lines[c]);
    var first := Scan(lines, c + 1, HasText());
    assert forall j | c + 1 <= j < first :: !HasText()(lines[j]);
    assert first < |lines| ==> HasText()(lines[first]);
    assert forall j | c + 1 <= j < end :: !ClosesMap(depth)(lines[j]);
    assert end < |lines| ==> ClosesMap(depth)(lines[end]);
    assert forall j | c < j < first :: Blank(lines[j]);
    assert first < |lines| ==> !Blank(lines[first]);
    assert forall j | c < j < end :: Blank(lines[j]) || Indent(lines[j]) > depth;
    assert end < |lines| ==> !Blank(lines[end]) && Indent(lines[end]) <= depth;
    hide HasText, ClosesMap, Scan;
  }
}
