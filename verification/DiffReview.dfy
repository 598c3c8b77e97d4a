/** Grouping a flat diff by file and laying a section out side by side
    (client/src/components/InlineCodeDiffReview.tsx). */
module DiffReview {
  import opened Text

  /** A diff line's `type`; anything but the four known ones is `Other`. */
  datatype Kind = H | C | A | D | Other

  datatype Line = Line(kind: Kind, text: string)

  // ---------------------------------------------------------------- grouping

  datatype Section = Section(path: string, add: nat, del: nat, lines: seq<Line>)

  /** The characters `.` does not match in a JavaScript pattern. */
  predicate EndsJsLine(c: char) {
    c == '\n' || c == '\r' || c as int == 0x2028 || c as int == 0x2029
  }

  /** `/^\+\+\+ b\/(.+)$/`: the path a file header names. */
  function HeaderPath(text: string): Option<string> {
    if StartsWith(text, "+++ b/") && |text| > 6 && (forall i | 6 <= i < |text| :: !EndsJsLine(text[i]))
    then Some(text[6..]) else None
  }

  /** A header names exactly the text after `+++ b/`, which is not empty and has no end of line
      as JavaScript knows them. */
  lemma HeaderPathIff(text: string, path: string)
    ensures HeaderPath(text) == Some(path) <==>
              && text == "+++ b/" + path && path != ""
              && forall i | 0 <= i < |path| :: path[i] !in {'\n', '\r', '\U{2028}', '\U{2029}'}
  {
    assert text == "+++ b/" + path ==> text[6..] == path;
    assert "+++ b/" <= text ==> text == "+++ b/" + text[6..];
    if text == "+++ b/" + path {
      assert forall i | 0 <= i < |path| :: text[6 + i] == path[i];
      assert forall i | 6 <= i < |text| :: text[i] == path[i - 6];
    }
  }

  predicate IsHeader(line: Line) {
    HeaderPath(line.text).Some?
  }

  function Count(lines: seq<Line>, kind: Kind): nat {
    if lines == [] then 0
    else Count(lines[..|lines| - 1], kind) + if lines[|lines| - 1].kind == kind then 1 else 0
  }

  function Kinds(lines: seq<Line>): seq<Kind> {
    seq(|lines|, i requires 0 <= i < |lines| => lines[i].kind)
  }

  /** A tally is how often the kind occurs. */
  lemma {:induction false} CountIs(lines: seq<Line>, kind: Kind)
    ensures Count(lines, kind) == multiset(Kinds(lines))[kind]
  {
    if lines == [] {
    } else {
      var front, last := lines[..|lines| - 1], lines[|lines| - 1];
      CountIs(front, kind);
      assert Kinds(lines) == Kinds(front) + [last.kind];
    }
  }

  /** The path of the last header among these lines. */
  function PathAfter(lines: seq<Line>, default: string): string {
    if lines == [] then default
    else
      match HeaderPath(lines[|lines| - 1].text)
      case Some(path) => path
      case None => PathAfter(lines[..|lines| - 1], default)
  }

  /** Every line that is not a header, with the file it belongs to. */
  function Tagged(lines: seq<Line>, default: string): seq<(string, Line)> {
    if lines == [] then []
    else
      var before, line := lines[..|lines| - 1], lines[|lines| - 1];
      Tagged(before, default) + if IsHeader(line) then [] else [(PathAfter(before, default), line)]
  }

  /** A line that is no header comes in its turn, under the path of the nearest header before
      it, or under the default when there is none. */
  lemma {:induction false} TaggedIs(lines: seq<Line>, default: string, i: nat)
    requires i < |lines| && !IsHeader(lines[i])
    ensures var n := |Tagged(lines[..i], default)|;
            n < |Tagged(lines, default)| && Tagged(lines, default)[n] == (PathAfter(lines[..i], default), lines[i])
  {
    hide IsHeader, PathAfter;
    var front := lines[..|lines| - 1];
    if i == |lines| - 1 {
    } else {
      TaggedIs(front, default, i);
      assert front[..i] == lines[..i];
    }
  }

  lemma {:induction false} PathAfterIs(lines: seq<Line>, default: string, j: nat)
    requires forall k | j <= k < |lines| :: !IsHeader(lines[k])
    requires j <= |lines| && (j > 0 ==> IsHeader(lines[j - 1]))
    ensures PathAfter(lines, default) == if j == 0 then default else HeaderPath(lines[j - 1].text).value
  {
    hide HeaderPath;
    if j == |lines| {
    } else {
      PathAfterIs(lines[..|lines| - 1], default, j);
    }
  }

  function TagAll(path: string, lines: seq<Line>): seq<(string, Line)> {
    seq(|lines|, i requires 0 <= i < |lines| => (path, lines[i]))
  }

  function Contents(sections: seq<Section>): seq<(string, Line)> {
    if sections == [] then []
    else
      var last := sections[|sections| - 1];
      Contents(sections[..|sections| - 1]) + TagAll(last.path, last.lines)
  }

  ghost predicate Tallied(s: Section) {
    s.add == Count(s.lines, A) && s.del == Count(s.lines, D)
  }

  /** How much content precedes each section. */
  function SectionStarts(sections: seq<Section>): seq<nat> {
    if sections == [] then []
    else
      var before := sections[..|sections| - 1];
      SectionStarts(before) + [|Contents(before)|]
  }

  /** How much content precedes each run of lines between headers. */
  function RunStarts(lines: seq<Line>, default: string): seq<nat> {
    if lines == [] then []
    else
      var before, line := lines[..|lines| - 1], lines[|lines| - 1];
      RunStarts(before, default)
      + if !IsHeader(line) && (before == [] || IsHeader(before[|before| - 1])) then [|Tagged(before, default)|] else []
  }

  /** The sections of a flat diff: its lines in order, each under the file whose header
      precedes it, one section for each run between headers, with true tallies. */
  ghost predicate IsGrouping(sections: seq<Section>, lines: seq<Line>, default: string) {
    && Contents(sections) == Tagged(lines, default)
    && SectionStarts(sections) == RunStarts(lines, default)
    && forall s | s in sections :: s.lines != [] && Tallied(s)
  }

  lemma PrefixStep(lines: seq<Line>, i: nat)
    requires i < |lines|
    ensures lines[..i + 1][..i] == lines[..i] && lines[..i + 1][i] == lines[i]
  {
  }

  lemma ContentsAppend(sections: seq<Section>, s: Section)
    ensures Contents(sections + [s]) == Contents(sections) + TagAll(s.path, s.lines)
  {
    assert (sections + [s])[..|sections|] == sections;
  }

  lemma TagAllAppend(path: string, lines: seq<Line>, line: Line)
    ensures TagAll(path, lines + [line]) == TagAll(path, lines) + [(path, line)]
  {
  }

  lemma CountAppend(lines: seq<Line>, line: Line, kind: Kind)
    ensures Count(lines + [line], kind) == Count(lines, kind) + if line.kind == kind then 1 else 0
  {
    assert (lines + [line])[..|lines|] == lines;
  }

  lemma StartsAppend(sections: seq<Section>, s: Section)
    ensures SectionStarts(sections + [s]) == SectionStarts(sections) + [|Contents(sections)|]
  {
    assert (sections + [s])[..|sections|] == sections;
  }

  lemma GroupStep(lines: seq<Line>, i: nat, default: string)
    requires i < |lines|
    ensures Tagged(lines[..i + 1], default)
         == Tagged(lines[..i], default)
            + if IsHeader(lines[i]) then [] else [(PathAfter(lines[..i], default), lines[i])]
    ensures PathAfter(lines[..i + 1], default)
         == if IsHeader(lines[i]) then HeaderPath(lines[i].text).value else PathAfter(lines[..i], default)
    ensures RunStarts(lines[..i + 1], default)
         == RunStarts(lines[..i], default)
            + if !IsHeader(lines[i]) && (i == 0 || IsHeader(lines[i - 1])) then [|Tagged(lines[..i], default)|] else []
  {
    PrefixStep(lines, i);
  }

  /** `sections` and the section being filled are the grouping of the first `i` lines. */
  ghost predicate Grouped(sections: seq<Section>, current: Option<Section>, lines: seq<Line>, i: nat, default: string)
    requires i <= |lines|
  {
    && (forall s | s in sections :: s.lines != [] && Tallied(s))
    && match current
       case None => i == 0 && sections == []
       case Some(s) =>
         && i > 0 && Tallied(s) && s.path == PathAfter(lines[..i], default)
         && (s.lines == [] <==> IsHeader(lines[i - 1]))
         && Contents(sections) + TagAll(s.path, s.lines) == Tagged(lines[..i], default)
         && SectionStarts(sections) + (if s.lines == [] then [] else [|Contents(sections)|])
            == RunStarts(lines[..i], default)
  }

  /** The sections once the one being filled is closed, if it has anything in it. */
  function Closed(sections: seq<Section>, current: Option<Section>): seq<Section> {
    match current
    case None => sections
    case Some(s) => if s.lines == [] then sections else sections + [s]
  }

  lemma Close(sections: seq<Section>, current: Option<Section>, lines: seq<Line>, i: nat, default: string)
    requires i <= |lines| && Grouped(sections, current, lines, i, default)
    ensures IsGrouping(Closed(sections, current), lines[..i], default)
  {
    hide Tallied, PathAfter;
    if current.Some? {
      ContentsAppend(sections, current.value);
      StartsAppend(sections, current.value);
    }
  }

  lemma OpenNext(closed: seq<Section>, path: string, lines: seq<Line>, i: nat, default: string)
    requires i < |lines| && HeaderPath(lines[i].text) == Some(path)
    requires IsGrouping(closed, lines[..i], default)
    ensures Grouped(closed, Some(Section(path, 0, 0, [])), lines, i + 1, default)
  {
    hide Contents, SectionStarts, Tagged, RunStarts, PathAfter, HeaderPath;
    GroupStep(lines, i, default);
  }

  lemma TagAllLength(path: string, lines: seq<Line>)
    ensures |TagAll(path, lines)| == |lines|
  {
  }

  lemma EmptyGrouping(default: string)
    ensures Contents([]) == Tagged([], default) == TagAll(default, [])
    ensures SectionStarts([]) == RunStarts([], default) == []
    ensures PathAfter([], default) == default && Count([], A) == Count([], D) == 0
  {
  }

  lemma AddLine(sections: seq<Section>, current: Option<Section>, lines: seq<Line>, i: nat, default: string)
    requires i < |lines| && Grouped(sections, current, lines, i, default) && !IsHeader(lines[i])
    ensures var s := if current.None? then Section(default, 0, 0, []) else current.value;
            Grouped(sections,
                    Some(Section(s.path, s.add + (if lines[i].kind == A then 1 else 0),
                                 s.del + (if lines[i].kind == D then 1 else 0), s.lines + [lines[i]])),
                    lines, i + 1, default)
  {
    hide Count, HeaderPath, Tagged, Contents, SectionStarts, RunStarts, TagAll, PathAfter;
    var s := if current.None? then Section(default, 0, 0, []) else current.value;
    GroupStep(lines, i, default);
    CountAppend(s.lines, lines[i], A);
    CountAppend(s.lines, lines[i], D);
    TagAllAppend(s.path, s.lines, lines[i]);
    TagAllLength(s.path, s.lines);
    if current.None? {
      EmptyGrouping(default);
      assert lines[..0] == [];
    }
    var tagged := Tagged(lines[..i], default);
    assert Contents(sections) + TagAll(s.path, s.lines) == tagged && s.path == PathAfter(lines[..i], default);
    assert (Contents(sections) + TagAll(s.path, s.lines)) + [(s.path, lines[i])]
        == Contents(sections) + (TagAll(s.path, s.lines) + [(s.path, lines[i])]);
  }

  lemma StartGrouping(lines: seq<Line>, default: string)
    ensures Grouped([], None, lines, 0, default)
  {
  }

  /** The legacy flat diff, grouped by file. */
  method GroupLines(file: string, lines: seq<Line>) returns (sections: seq<Section>)
    ensures IsGrouping(sections, lines, if file != "" then file else "changes")
  {
    var default := if file != "" then file else "changes";
    hide Grouped, IsGrouping, HeaderPath;
    StartGrouping(lines, default);
    sections := [];
    var current: Option<Section> := None;
    var i := 0;
    while i < |lines|
      invariant 0 <= i <= |lines|
      invariant Grouped(sections, current, lines, i, default)
    {
      var line := lines[i];
      match HeaderPath(line.text) {
        case Some(path) =>
          Close(sections, current, lines, i, default);
          if current.Some? && current.value.lines != [] {
            sections := sections + [current.value];
          }
          OpenNext(sections, path, lines, i, default);
          current := Some(Section(path, 0, 0, []));
        case None =>
          AddLine(sections, current, lines, i, default);
          if current.None? {
            current := Some(Section(default, 0, 0, []));
          }
          var s := current.value;
          current := Some(Section(s.path, s.add + (if line.kind == A then 1 else 0),
                                  s.del + (if line.kind == D then 1 else 0), s.lines + [line]));
      }
      i := i + 1;
    }
    assert lines[..i] == lines;
    Close(sections, current, lines, i, default);
    if current.Some? && current.value.lines != [] {
      sections := sections + [current.value];
    }
  }

  /** `diffFileSections`: the server's sections when it sent some, else the flat diff grouped. */
  method DiffFileSections(given: seq<Section>, file: string, lines: seq<Line>) returns (sections: seq<Section>)
    ensures given != [] ==> sections == given
    ensures given == [] ==> IsGrouping(sections, lines, if file != "" then file else "changes")
  {
    if given != [] {
      return given;
    }
    if lines == [] {
      return [];
    }
    sections := GroupLines(file, lines);
  }

  /** There is only one such grouping. */
  lemma {:induction false} SameSections(a: seq<Section>, b: seq<Section>)
    requires Contents(a) == Contents(b) && SectionStarts(a) == SectionStarts(b)
    requires forall s | s in a :: s.lines != [] && Tallied(s)
    requires forall s | s in b :: s.lines != [] && Tallied(s)
    ensures a == b
    decreases |a|
  {
    if a != [] && b != [] {
      var a', b', x, y := a[..|a| - 1], b[..|b| - 1], a[|a| - 1], b[|b| - 1];
      assert x in a && y in b;
      assert SectionStarts(a)[|SectionStarts(a)| - 1] == SectionStarts(b)[|SectionStarts(b)| - 1];
      assert |Contents(a')| == |Contents(b')|;
      SplitEqual(Contents(a'), TagAll(x.path, x.lines), Contents(b'), TagAll(y.path, y.lines));
      SplitEqual(SectionStarts(a'), [|Contents(a')|], SectionStarts(b'), [|Contents(b')|]);
      SameSections(a', b');
      TagAllInjective(x, y);
      assert a == a' + [x] && b == b' + [y];
    }
  }

  lemma TagAllInjective(x: Section, y: Section)
    requires x.lines != [] && TagAll(x.path, x.lines) == TagAll(y.path, y.lines)
    ensures x.path == y.path && x.lines == y.lines
  {
    var a, b := TagAll(x.path, x.lines), TagAll(y.path, y.lines);
    assert |x.lines| == |a| == |y.lines|;
    assert a[0].0 == x.path && b[0].0 == y.path;
    forall k | 0 <= k < |x.lines| ensures x.lines[k] == y.lines[k] {
      assert a[k].1 == x.lines[k] && b[k].1 == y.lines[k];
    }
  }

  lemma SplitEqual<T>(a: seq<T>, x: seq<T>, b: seq<T>, y: seq<T>)
    requires a + x == b + y && |a| == |b|
    ensures a == b && x == y
  {
    assert a == (a + x)[..|a|] && b == (b + y)[..|b|];
    assert x == (a + x)[|a|..] && y == (b + y)[|b|..];
  }

  lemma GroupingUnique(a: seq<Section>, b: seq<Section>, lines: seq<Line>, default: string)
    requires IsGrouping(a, lines, default) && IsGrouping(b, lines, default)
    ensures a == b
  {
    SameSections(a, b);
  }

  function Added(sections: seq<Section>): nat {
    if sections == [] then 0 else Added(sections[..|sections| - 1]) + sections[|sections| - 1].add
  }

  function Deleted(sections: seq<Section>): nat {
    if sections == [] then 0 else Deleted(sections[..|sections| - 1]) + sections[|sections| - 1].del
  }

  function Untag(tagged: seq<(string, Line)>): (lines: seq<Line>)
    ensures |lines| == |tagged|
  {
    seq(|tagged|, i requires 0 <= i < |tagged| => tagged[i].1)
  }

  lemma {:induction false} CountJoin(a: seq<Line>, b: seq<Line>, kind: Kind)
    ensures Count(a + b, kind) == Count(a, kind) + Count(b, kind)
  {
    if b == [] {
      assert a + b == a;
    } else {
      var b' := b[..|b| - 1];
      CountJoin(a, b', kind);
      assert (a + b)[..|a + b| - 1] == a + b';
    }
  }

  /** The sections' tallies add up to the diff's, whatever the grouping. */
  lemma {:induction false} TotalsMatch(sections: seq<Section>)
    requires forall s | s in sections :: Tallied(s)
    ensures Added(sections) == Count(Untag(Contents(sections)), A)
    ensures Deleted(sections) == Count(Untag(Contents(sections)), D)
  {
    if sections == [] {
      assert Untag(Contents(sections)) == [];
    } else {
      var before, last := sections[..|sections| - 1], sections[|sections| - 1];
      assert last in sections && forall s | s in before :: s in sections;
      TotalsMatch(before);
      var a, b := Untag(Contents(before)), last.lines;
      assert Untag(Contents(sections)) == a + b;
      CountJoin(a, b, A);
      CountJoin(a, b, D);
    }
  }

  // ---------------------------------------------------------------- side by side

  datatype Ref = Ref(line: Line, index: nat)

  datatype Row = Hunk(ref: Ref) | Change(left: Option<Ref>, right: Option<Ref>)

  datatype Pane = Old | New

  /** The old text, the new text, and the whole diff. */
  datatype Side = Before | After | Whole

  predicate Belongs(kind: Kind, side: Side) {
    match side
    case Before => kind == C || kind == D
    case After => kind == C || kind == A
    case Whole => kind != Other
  }

  /** The lines on a side, in order, with their places. */
  function Refs(lines: seq<Line>, side: Side): seq<Ref> {
    if lines == [] then []
    else
      var n := |lines| - 1;
      Refs(lines[..n], side) + if Belongs(lines[n].kind, side) then [Ref(lines[n], n)] else []
  }

  function Cell(row: Row, pane: Pane): seq<Ref> {
    match row
    case Hunk(_) => []
    case Change(left, right) =>
      var cell := if pane == Old then left else right;
      if cell.Some? then [cell.value] else []
  }

  /** One pane, top to bottom. */
  function Column(rows: seq<Row>, pane: Pane): seq<Ref> {
    if rows == [] then []
    else Column(rows[..|rows| - 1], pane) + Cell(rows[|rows| - 1], pane)
  }

  function FlatRow(row: Row): seq<Ref> {
    match row
    case Hunk(ref) => [ref]
    case Change(left, right) =>
      (if left.Some? then [left.value] else []) + (if right.Some? && right != left then [right.value] else [])
  }

  /** The rows read back as a unified diff. */
  function Flat(rows: seq<Row>): seq<Ref> {
    if rows == [] then []
    else Flat(rows[..|rows| - 1]) + FlatRow(rows[|rows| - 1])
  }

  /** What may stand in one row: context beside itself, a deletion beside the addition right
      after it, and otherwise one line alone. */
  ghost predicate Proper(row: Row, lines: seq<Line>) {
    match row
    case Hunk(ref) => ref.line.kind == H
    case Change(Some(l), Some(r)) =>
      (l == r && l.line.kind == C) || (l.line.kind == D && r.line.kind == A && r.index == l.index + 1)
    case Change(Some(l), None) => l.line.kind == D && !(l.index + 1 < |lines| && lines[l.index + 1].kind == A)
    case Change(None, Some(r)) => r.line.kind == A
    case Change(None, None) => false
  }

  ghost predicate IsSplitView(rows: seq<Row>, lines: seq<Line>) {
    && Column(rows, Old) == Refs(lines, Before)
    && Column(rows, New) == Refs(lines, After)
    && Flat(rows) == Refs(lines, Whole)
    && forall i | 0 <= i < |rows| :: Proper(rows[i], lines)
  }

  lemma Push(rows: seq<Row>, row: Row)
    ensures Column(rows + [row], Old) == Column(rows, Old) + Cell(row, Old)
    ensures Column(rows + [row], New) == Column(rows, New) + Cell(row, New)
    ensures Flat(rows + [row]) == Flat(rows) + FlatRow(row)
  {
    assert (rows + [row])[..|rows|] == rows;
  }

  lemma RefsStep(lines: seq<Line>, i: nat, side: Side)
    requires i < |lines|
    ensures Refs(lines[..i + 1], side)
         == Refs(lines[..i], side) + if Belongs(lines[i].kind, side) then [Ref(lines[i], i)] else []
  {
    PrefixStep(lines, i);
  }

  lemma Advance(lines: seq<Line>, i: nat)
    requires i < |lines|
    ensures forall side: Side ::
              Refs(lines[..i + 1], side)
              == Refs(lines[..i], side) + if Belongs(lines[i].kind, side) then [Ref(lines[i], i)] else []
  {
    RefsStep(lines, i, Before);
    RefsStep(lines, i, After);
    RefsStep(lines, i, Whole);
  }

  /** The rows so far are the split view of the first `i` lines, within the whole diff. */
  ghost predicate Laid(rows: seq<Row>, lines: seq<Line>, i: nat)
    requires i <= |lines|
  {
    && Column(rows, Old) == Refs(lines[..i], Before)
    && Column(rows, New) == Refs(lines[..i], After)
    && Flat(rows) == Refs(lines[..i], Whole)
    && forall k | 0 <= k < |rows| :: Proper(rows[k], lines)
  }

  lemma LayNone(rows: seq<Row>, lines: seq<Line>, i: nat)
    requires i < |lines| && Laid(rows, lines, i) && lines[i].kind == Other
    ensures Laid(rows, lines, i + 1)
  {
    hide Column, Flat, Refs;
    Advance(lines, i);
  }

  /** A proper row that shows line `i` alone. */
  ghost predicate Single(row: Row, lines: seq<Line>, i: nat)
    requires i < |lines|
  {
    && Proper(row, lines) && FlatRow(row) == [Ref(lines[i], i)] && lines[i].kind != Other
    && Cell(row, Old) == (if Belongs(lines[i].kind, Before) then [Ref(lines[i], i)] else [])
    && Cell(row, New) == (if Belongs(lines[i].kind, After) then [Ref(lines[i], i)] else [])
  }

  lemma SingleRows(lines: seq<Line>, i: nat)
    requires i < |lines|
    ensures var ref, kind := Ref(lines[i], i), lines[i].kind;
            && (kind == H ==> Single(Hunk(ref), lines, i))
            && (kind == C ==> Single(Change(Some(ref), Some(ref)), lines, i))
            && (kind == D && !(i + 1 < |lines| && lines[i + 1].kind == A) ==> Single(Change(Some(ref), None), lines, i))
            && (kind == A ==> Single(Change(None, Some(ref)), lines, i))
  {
  }

  lemma WholeIsKnown(kind: Kind)
    ensures Belongs(kind, Whole) <==> kind != Other
  {
  }

  lemma LayOne(rows: seq<Row>, lines: seq<Line>, i: nat, row: Row)
    requires i < |lines| && Laid(rows, lines, i) && Single(row, lines, i)
    ensures Laid(rows + [row], lines, i + 1)
  {
    hide Column, Flat, Refs, FlatRow, Proper, Belongs, Cell;
    Advance(lines, i);
    Push(rows, row);
    assert Belongs(lines[i].kind, Whole) by { WholeIsKnown(lines[i].kind); }
  }

  lemma LayPair(rows: seq<Row>, lines: seq<Line>, i: nat)
    requires i + 1 < |lines| && Laid(rows, lines, i) && lines[i].kind == D && lines[i + 1].kind == A
    ensures Laid(rows + [Change(Some(Ref(lines[i], i)), Some(Ref(lines[i + 1], i + 1)))], lines, i + 2)
  {
    hide Column, Flat, Refs, Belongs;
    var l, r := Ref(lines[i], i), Ref(lines[i + 1], i + 1);
    var row := Change(Some(l), Some(r));
    PairRefs(lines, i);
    Push(rows, row);
    PairCells(lines, l, r);
    hide Cell, FlatRow, Proper;
    assert forall k | 0 <= k < |rows + [row]| :: Proper((rows + [row])[k], lines);
  }

  lemma PairCells(lines: seq<Line>, l: Ref, r: Ref)
    requires l.line.kind == D && r.line.kind == A && r.index == l.index + 1
    ensures var row := Change(Some(l), Some(r));
            Cell(row, Old) == [l] && Cell(row, New) == [r] && FlatRow(row) == [l, r] && Proper(row, lines)
  {
  }

  lemma PairRefs(lines: seq<Line>, i: nat)
    requires i + 1 < |lines| && lines[i].kind == D && lines[i + 1].kind == A
    ensures var l, r := Ref(lines[i], i), Ref(lines[i + 1], i + 1);
            && Refs(lines[..i + 2], Before) == Refs(lines[..i], Before) + [l]
            && Refs(lines[..i + 2], After) == Refs(lines[..i], After) + [r]
            && Refs(lines[..i + 2], Whole) == Refs(lines[..i], Whole) + [l, r]
  {
    hide Refs;
    var l, r := Ref(lines[i], i), Ref(lines[i + 1], i + 1);
    Advance(lines, i);
    Advance(lines, i + 1);
    PairEnds(Refs(lines[..i], Whole), l, r);
    PairEnds(Refs(lines[..i], After), r, r);
    PairEnds(Refs(lines[..i], Before), l, l);
  }

  lemma PairEnds<T>(s: seq<T>, x: T, y: T)
    ensures s + [x] + [y] == s + [x, y]
    ensures s + [x] + [] == s + [x] && s + [] + [x] == s + [x]
  {
  }

  /** The split view says what the unified one says: the old pane is the context and the
      deletions, the new pane the context and the additions, in order and at their true
      places, and read row by row it is the diff again. */
  method BuildSideBySideRows(lines: seq<Line>) returns (rows: seq<Row>)
    ensures IsSplitView(rows, lines)
  {
    rows := [];
    var index := 0;
    assert Laid(rows, lines, 0);
    while index < |lines|
      invariant 0 <= index <= |lines|
      invariant Laid(rows, lines, index)
    {
      hide Laid, Column, Flat, Refs, Single, Proper, Cell, FlatRow;
      var line := lines[index];
      var ref := Ref(line, index);
      SingleRows(lines, index);
      match line.kind {
        case H =>
          LayOne(rows, lines, index, Hunk(ref));
          rows := rows + [Hunk(ref)];
          index := index + 1;
        case C =>
          LayOne(rows, lines, index, Change(Some(ref), Some(ref)));
          rows := rows + [Change(Some(ref), Some(ref))];
          index := index + 1;
        case D =>
          if index + 1 < |lines| && lines[index + 1].kind == A {
            LayPair(rows, lines, index);
            rows := rows + [Change(Some(ref), Some(Ref(lines[index + 1], index + 1)))];
            index := index + 2;
          } else {
            LayOne(rows, lines, index, Change(Some(ref), None));
            rows := rows + [Change(Some(ref), None)];
            index := index + 1;
          }
        case A =>
          LayOne(rows, lines, index, Change(None, Some(ref)));
          rows := rows + [Change(None, Some(ref))];
          index := index + 1;
        case Other =>
          LayNone(rows, lines, index);
          index := index + 1;
      }
    }
    assert lines[..index] == lines;
  }

  // ---------------------------------------------------------------- the layout is determined

  lemma {:induction false} RefsAreTrue(lines: seq<Line>, side: Side, k: nat)
    requires k < |Refs(lines, side)|
    ensures var ref := Refs(lines, side)[k];
            ref.index < |lines| && ref.line == lines[ref.index] && Belongs(ref.line.kind, side)
  {
    var n := |lines| - 1;
    if k < |Refs(lines[..n], side)| {
      RefsAreTrue(lines[..n], side, k);
    }
  }

  /** A side is its lines, named one by one, with their true places in order. */
  lemma {:induction false} RefsIff(lines: seq<Line>, side: Side, ref: Ref)
    ensures ref in Refs(lines, side) <==>
              && ref.index < |lines| && ref.line == lines[ref.index]
              && match side
                 case Before => ref.line.kind in {C, D}
                 case After => ref.line.kind in {C, A}
                 case Whole => ref.line.kind in {H, C, A, D}
    ensures forall a, b | 0 <= a < b < |Refs(lines, side)| :: Refs(lines, side)[a].index < Refs(lines, side)[b].index
    ensures forall a | 0 <= a < |Refs(lines, side)| :: Refs(lines, side)[a].index < |lines|
  {
    if lines == [] {
    } else {
      var n := |lines| - 1;
      RefsIff(lines[..n], side, ref);
    }
  }

  lemma {:induction false} InColumnIff(rows: seq<Row>, pane: Pane, ref: Ref)
    ensures ref in Column(rows, pane) <==>
              exists k | 0 <= k < |rows| ::
                rows[k].Change? && Some(ref) == match pane case Old => rows[k].left case New => rows[k].right
  {
    if rows == [] {
    } else {
      var n := |rows| - 1;
      InColumnIff(rows[..n], pane, ref);
      assert forall k | 0 <= k < n :: rows[..n][k] == rows[k];
    }
  }

  /** In a split view the left cells are the context and the deletions, and the right cells the
      context and the additions, each line at its true place. */
  lemma PanesShow(rows: seq<Row>, lines: seq<Line>, i: nat)
    requires IsSplitView(rows, lines) && i < |lines|
    ensures (exists k | 0 <= k < |rows| :: rows[k].Change? && rows[k].left == Some(Ref(lines[i], i)))
       <==> lines[i].kind in {C, D}
    ensures (exists k | 0 <= k < |rows| :: rows[k].Change? && rows[k].right == Some(Ref(lines[i], i)))
       <==> lines[i].kind in {C, A}
  {
    hide Column, Refs;
    var ref := Ref(lines[i], i);
    RefsIff(lines, Before, ref);
    RefsIff(lines, After, ref);
    InColumnIff(rows, Old, ref);
    InColumnIff(rows, New, ref);
  }

  /** And every row is a hunk, a context line beside itself, a deletion beside the addition
      that follows it, a deletion that no addition follows, or an addition alone. */
  lemma RowsAre(rows: seq<Row>, lines: seq<Line>, k: nat)
    requires IsSplitView(rows, lines) && k < |rows|
    ensures match rows[k]
            case Hunk(ref) => ref.line.kind == H && ref.index < |lines| && ref.line == lines[ref.index]
            case Change(Some(l), Some(r)) =>
              || (l == r && l.line.kind == C)
              || (l.line.kind == D && r.line.kind == A && r.index == l.index + 1)
            case Change(Some(l), None) =>
              l.line.kind == D && (l.index + 1 < |lines| ==> lines[l.index + 1].kind != A)
            case Change(None, Some(r)) => r.line.kind == A
            case Change(None, None) => false
  {
    hide Refs, Column, Flat;
    if rows[k].Hunk? {
      InFlat(rows, k, rows[k].ref);
      RefsIff(lines, Whole, rows[k].ref);
    }
  }

  lemma {:induction false} InFlat(rows: seq<Row>, k: nat, ref: Ref)
    requires k < |rows| && ref in FlatRow(rows[k])
    ensures ref in Flat(rows)
  {
    if k == |rows| - 1 {
    } else {
      InFlat(rows[..|rows| - 1], k, ref);
    }
  }

  lemma LastRow(rows: seq<Row>, lines: seq<Line>)
    requires rows != [] && forall i | 0 <= i < |rows| :: Proper(rows[i], lines)
    ensures var row := rows[|rows| - 1];
            && Proper(row, lines) && 1 <= |FlatRow(row)| <= 2
            && Flat(rows) == Flat(rows[..|rows| - 1]) + FlatRow(row)
  {
  }

  /** Proper rows that read back as the same true lines end in the same row: the one choice,
      a deletion and the addition after it in one row or in two, `Proper` makes. */
  lemma SameLastRow(rows: seq<Row>, rows': seq<Row>, lines: seq<Line>)
    requires rows != [] && rows' != [] && Flat(rows) == Flat(rows')
    requires forall i | 0 <= i < |rows| :: Proper(rows[i], lines)
    requires forall i | 0 <= i < |rows'| :: Proper(rows'[i], lines)
    requires forall ref | ref in Flat(rows) :: ref.index < |lines| && ref.line == lines[ref.index]
    requires |FlatRow(rows[|rows| - 1])| <= |FlatRow(rows'[|rows'| - 1])|
    ensures rows[|rows| - 1] == rows'[|rows'| - 1]
  {
    hide Flat;
    LastRow(rows, lines);
    LastRow(rows', lines);
    var before, before' := rows[..|rows| - 1], rows'[..|rows'| - 1];
    var row, row' := rows[|rows| - 1], rows'[|rows'| - 1];
    if |FlatRow(row)| < |FlatRow(row')| {
      // row' pairs a deletion with the last line, so the deletion would end `before`
      PairRow(row', lines);
      LastTwo(Flat(before), FlatRow(row), Flat(before'), FlatRow(row'));
      hide FlatRow, Proper;
      DeletionNotAlone(before, lines, row'.left.value);
    } else {
      SameTail(Flat(before), FlatRow(row), Flat(before'), FlatRow(row'));
      hide Flat;
      FlatRowInjective(row, row', lines);
    }
  }

  lemma PairRow(row: Row, lines: seq<Line>)
    requires Proper(row, lines) && |FlatRow(row)| == 2
    ensures row.Change? && row.left.Some? && row.right.Some?
    ensures row.left.value.line.kind == D && row.right.value.line.kind == A
    ensures row.right.value.index == row.left.value.index + 1
    ensures FlatRow(row) == [row.left.value, row.right.value]
  {
  }

  lemma FlatRowInjective(row: Row, row': Row, lines: seq<Line>)
    requires Proper(row, lines) && Proper(row', lines) && FlatRow(row) == FlatRow(row')
    ensures row == row'
  {
    assert FlatRow(row)[0] == FlatRow(row')[0];
    assert |FlatRow(row)| > 1 ==> FlatRow(row)[1] == FlatRow(row')[1];
  }

  lemma SameTail<T>(a: seq<T>, x: seq<T>, b: seq<T>, y: seq<T>)
    requires a + x == b + y && |x| == |y|
    ensures a == b && x == y
  {
    assert |a + x| == |b + y|;
    SplitEqual(a, x, b, y);
  }

  lemma LastTwo<T>(a: seq<T>, x: seq<T>, b: seq<T>, y: seq<T>)
    requires a + x == b + y && |x| == 1 && |y| == 2
    ensures a != [] && a[|a| - 1] == y[0] && x[0] == y[1] && y[1] in a + x
  {
    assert (a + x)[|a| - 1] == (b + y)[|b|] && (a + x)[|a|] == (b + y)[|b| + 1];
  }

  /** Proper rows do not end in a deletion that an addition follows. */
  lemma DeletionNotAlone(rows: seq<Row>, lines: seq<Line>, l: Ref)
    requires forall i | 0 <= i < |rows| :: Proper(rows[i], lines)
    requires l.line.kind == D && l.index + 1 < |lines| && lines[l.index + 1].kind == A
    ensures Flat(rows) == [] || Flat(rows)[|Flat(rows)| - 1] != l
  {
    if rows == [] {
      FlatNil();
    } else {
      hide Flat, FlatRow, Proper;
      var row := rows[|rows| - 1];
      LastRow(rows, lines);
      LastRef(row, lines, l);
      assert Flat(rows)[|Flat(rows)| - 1] == FlatRow(row)[|FlatRow(row)| - 1];
    }
  }

  lemma LastRef(row: Row, lines: seq<Line>, l: Ref)
    requires Proper(row, lines) && FlatRow(row) != []
    requires l.line.kind == D && l.index + 1 < |lines| && lines[l.index + 1].kind == A
    ensures FlatRow(row)[|FlatRow(row)| - 1] != l
  {
  }

  /** There is only one such layout. */
  lemma {:induction false} SplitViewUnique(rows: seq<Row>, rows': seq<Row>, lines: seq<Line>)
    requires IsSplitView(rows, lines) && IsSplitView(rows', lines)
    ensures rows == rows'
  {
    forall ref | ref in Flat(rows) ensures ref.index < |lines| && ref.line == lines[ref.index] {
      var k :| 0 <= k < |Flat(rows)| && Flat(rows)[k] == ref;
      RefsAreTrue(lines, Whole, k);
    }
    SameRows(rows, rows', lines);
  }

  lemma FlatNil()
    ensures Flat([]) == []
  {
  }

  lemma {:induction false} SameRows(rows: seq<Row>, rows': seq<Row>, lines: seq<Line>)
    requires Flat(rows) == Flat(rows')
    requires forall i | 0 <= i < |rows| :: Proper(rows[i], lines)
    requires forall i | 0 <= i < |rows'| :: Proper(rows'[i], lines)
    requires forall ref | ref in Flat(rows) :: ref.index < |lines| && ref.line == lines[ref.index]
    ensures rows == rows'
    decreases |rows|
  {
    hide Flat, FlatRow, Proper;
    FlatNil();
    if rows == [] {
      if rows' != [] {
        LastRow(rows', lines);
      }
    } else if rows' == [] {
      LastRow(rows, lines);
    } else {
      LastRow(rows, lines);
      LastRow(rows', lines);
      if |FlatRow(rows[|rows| - 1])| <= |FlatRow(rows'[|rows'| - 1])| {
        SameLastRow(rows, rows', lines);
      } else {
        SameLastRow(rows', rows, lines);
      }
      var before, before' := rows[..|rows| - 1], rows'[..|rows'| - 1];
      SameTail(Flat(before), FlatRow(rows[|rows| - 1]), Flat(before'), FlatRow(rows'[|rows'| - 1]));
      SameRows(before, before', lines);
      assert rows == before + [rows[|rows| - 1]];
      assert rows' == before' + [rows[|rows| - 1]];
    }
  }

  // ---------------------------------------------------------------- comments

  /** Whether a line's comment thread, and the button to add to it, show in a pane. */
  predicate ShowsComments(pane: Pane, kind: Kind) {
    match pane
    case Old => kind == D || kind == C
    case New => kind == A || kind == C
  }

  function Hits(cell: seq<Ref>, pane: Pane, i: nat): nat {
    if cell == [] then 0
    else
      Hits(cell[..|cell| - 1], pane, i)
      + if cell[|cell| - 1].index == i && ShowsComments(pane, cell[|cell| - 1].line.kind) then 1 else 0
  }

  /** In how many cells of the split view line `i` shows its comments. */
  function Threads(rows: seq<Row>, i: nat): nat {
    if rows == [] then 0
    else
      Threads(rows[..|rows| - 1], i)
      + Hits(Cell(rows[|rows| - 1], Old), Old, i) + Hits(Cell(rows[|rows| - 1], New), New, i)
  }

  lemma {:induction false} HitsJoin(a: seq<Ref>, b: seq<Ref>, pane: Pane, i: nat)
    ensures Hits(a + b, pane, i) == Hits(a, pane, i) + Hits(b, pane, i)
  {
    if b == [] {
      assert a + b == a;
    } else {
      HitsJoin(a, b[..|b| - 1], pane, i);
      assert (a + b)[..|a + b| - 1] == a + b[..|b| - 1];
    }
  }

  lemma {:induction false} ThreadsByColumn(rows: seq<Row>, i: nat)
    ensures Threads(rows, i) == Hits(Column(rows, Old), Old, i) + Hits(Column(rows, New), New, i)
  {
    if rows == [] {
    } else {
      var before, row := rows[..|rows| - 1], rows[|rows| - 1];
      ThreadsByColumn(before, i);
      HitsJoin(Column(before, Old), Cell(row, Old), Old, i);
      HitsJoin(Column(before, New), Cell(row, New), New, i);
    }
  }

  lemma {:induction false} HitsInRefs(lines: seq<Line>, side: Side, pane: Pane, i: nat)
    ensures Hits(Refs(lines, side), pane, i)
         == if i < |lines| && Belongs(lines[i].kind, side) && ShowsComments(pane, lines[i].kind) then 1 else 0
  {
    if lines == [] {
    } else {
      var n := |lines| - 1;
      HitsInRefs(lines[..n], side, pane, i);
      HitsJoin(Refs(lines[..n], side), if Belongs(lines[n].kind, side) then [Ref(lines[n], n)] else [], pane, i);
    }
  }

  /** Every addition and deletion offers its thread in exactly one pane, every context line
      in both, and nothing else does. */
  lemma CommentPanes(rows: seq<Row>, lines: seq<Line>, i: nat)
    requires IsSplitView(rows, lines) && i < |lines|
    ensures Threads(rows, i)
         == match lines[i].kind case A => 1 case D => 1 case C => 2 case _ => 0
  {
    ThreadsByColumn(rows, i);
    HitsInRefs(lines, Before, Old, i);
    HitsInRefs(lines, After, New, i);
  }
}
