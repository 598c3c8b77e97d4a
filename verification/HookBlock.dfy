/** The block the hook installer writes and what putting it into a configuration does
    (scripts/install_workspace_hooks.py, `render_block` and `colliding_commands`). */
module HookBlock {
  import opened Lines
  import opened Text
  import opened ManagedBlock
  import opened Forest
  import opened CommandsMap

  /** `s.rstrip(":")`. */
  function DropColons(s: string): string {
    if s != "" && s[|s| - 1] == ':' then DropColons(s[..|s| - 1]) else s
  }

  /** A non-comment line that reads as the block-style key `name`. */
  predicate Defines(line: string, name: string) {
    var s := Strip(line);
    EndsWith(s, ":") && !StartsWith(s, "#") && DropColons(s) == name
  }

  /** A text that is a name and colons, at least one of them. */
  ghost predicate NameAndColons(s: string, name: string) {
    |name| < |s| && name <= s && forall j | |name| <= j < |s| :: s[j] == ':'
  }

  /** A line defines a name, that is no comment and does not itself end in a colon, exactly
      when it is the name and colons once stripped. */
  lemma DefinesIff(line: string, name: string)
    requires name != "" && name[0] != '#' && name[|name| - 1] != ':'
    ensures Defines(line, name) <==> NameAndColons(Strip(line), name)
  {
    hide Strip;
    var s := Strip(line);
    DropColonsIff(s, name);
    assert NameAndColons(s, name) ==> s[0] == name[0] && s[|s| - 1..] == ":";
  }

  lemma {:induction false} DropColonsIff(s: string, name: string)
    requires name != "" && name[|name| - 1] != ':'
    ensures DropColons(s) == name <==> s == name || NameAndColons(s, name)
  {
    if s == "" {
    } else if s[|s| - 1] == ':' {
      var front := s[..|s| - 1];
      DropColonsIff(front, name);
      assert s == front + ":";
      assert |name| < |s| ==> s[..|name|] == front[..|name|];
      assert forall j | 0 <= j < |front| :: front[j] == s[j];
    }
  }

  predicate Collides(lines: seq<string>, name: string) {
    exists i | 0 <= i < |lines| :: Defines(lines[i], name)
  }

  /** The unindented block for one loregarden root. `keyAt` is the line of the managed key. */
  datatype Template = Template(markers: Markers, eden: string, key: string, body: seq<string>, keyAt: nat) {

    ghost predicate Valid() {
      && markers.Valid() && BoundaryFree(markers.begin) && BoundaryFree(markers.end)
      && 0 < keyAt < |body| - 1
      && body[0] == markers.begin && body[|body| - 1] == markers.end
      && (forall i | 0 < i < |body| - 1 :: !markers.On(body[i]))
      && (forall i | 0 <= i < |body| :: !Blank(body[i]) && EndsVisibly(body[i]))
      && (forall i | 0 <= i < |body| :: Defines(body[i], key) <==> i == keyAt)
      && (forall i | 0 <= i < |body| :: Indent(body[i]) == if keyAt < i < |body| - 1 then 2 else 0)
    }

    /** No line of the block breaks into one that is a marker. */
    ghost predicate Harmless() {
      forall i | 0 < i < |body| - 1 :: markers.Free(SplitLines(body[i]))
    }

    function Render(entry: nat): (block: seq<string>)
      ensures |block| == |body|
    {
      seq(|body|, i requires 0 <= i < |body| =>
        if !Blank(body[i]) then Spaces(entry) + body[i] else body[i])
    }
  }

  function Insert(lines: seq<string>, k: nat, block: seq<string>): seq<string>
    requires k <= |lines|
  {
    lines[..k] + block + lines[k..]
  }

  /** The configuration an install writes for the workspace's own lines. */
  function Installed(rest: seq<string>, t: Template): seq<string>
    requires Locate(rest).Some?
  {
    var p := Locate(rest).value;
    Insert(rest, InsertAt(rest, p.commands), t.Render(p.entry))
  }

  lemma RenderedLine(t: Template, entry: nat, i: nat)
    requires t.Valid() && i < |t.body|
    ensures var line := t.Render(entry)[i];
            && line == Spaces(entry) + t.body[i]
            && Strip(line) == Strip(t.body[i])
            && !Blank(line)
            && Indent(line) == entry + Indent(t.body[i])
  {
    IndentPadded(entry, t.body[i]);
  }

  lemma RenderDelimits(t: Template, entry: nat)
    requires t.Valid()
    ensures t.markers.Delimits(t.Render(entry))
  {
    hide Strip, Indent, Blank;
    var block := t.Render(entry);
    forall i | 0 <= i < |block| ensures Strip(block[i]) == Strip(t.body[i]) {
      RenderedLine(t, entry, i);
    }
    StripTrimmed(t.markers.begin);
    StripTrimmed(t.markers.end);
    var inner := block[1..|block| - 1];
    assert forall i | 0 <= i < |inner| :: inner[i] == block[i + 1];
  }

  lemma SpacesBoundaryFree(n: nat)
    ensures BoundaryFree(Spaces(n))
  {
  }

  lemma RenderBoundaryFree(t: Template, entry: nat)
    requires t.Valid()
    ensures AllBoundaryFree(t.Render(entry)) <==> AllBoundaryFree(t.body)
  {
    hide Strip, BoundaryFree, Blank, Indent, Spaces;
    var block := t.Render(entry);
    forall i | 0 <= i < |block| ensures BoundaryFree(block[i]) <==> BoundaryFree(t.body[i]) {
      RenderedLine(t, entry, i);
      JoinBoundaryFree(Spaces(entry), t.body[i]);
      SpacesBoundaryFree(entry);
    }
  }

  // ---------------------------------------------------------------- reading it back

  /** A rendered line breaks where the line does, into the same lines once stripped. */
  lemma RenderedFragments(t: Template, entry: nat, nl: string, i: nat)
    requires t.Valid() && IsNewline(nl) && i < |t.body|
    ensures t.markers.Free(SplitLines(t.Render(entry)[i] + nl)) <==> t.markers.Free(SplitLines(t.body[i]))
  {
    hide Strip, Indent, Blank, SplitLines, Defines, IsBoundary, Markers.Valid;
    RenderedLine(t, entry, i);
    var s, line := t.body[i], t.Render(entry)[i];
    assert line[|line| - 1] == s[|s| - 1];
    hide Template.Valid, Template.Render;
    SplitEnded(line, nl);
    SplitPadded(entry, s);
    IndentPadded(entry, SplitLines(s)[0]);
    var parts, padded := SplitLines(s), SplitLines(line);
    assert forall j | 0 <= j < |parts| :: Strip(padded[j]) == Strip(parts[j]);
  }

  /** The rendered block: a begin marker, the lines between, and an end marker. */
  lemma RenderEnds(t: Template, entry: nat)
    requires t.Valid()
    ensures var b := t.Render(entry);
            && b == [b[0]] + b[1..|b| - 1] + [b[|b| - 1]]
            && Strip(b[0]) == t.markers.begin && BoundaryFree(b[0])
            && Strip(b[|b| - 1]) == t.markers.end && BoundaryFree(b[|b| - 1])
  {
    hide Strip, Indent, Blank, BoundaryFree, Defines, Spaces;
    var n := |t.body| - 1;
    RenderedLine(t, entry, 0);
    RenderedLine(t, entry, n);
    StripTrimmed(t.markers.begin);
    StripTrimmed(t.markers.end);
    SpacesBoundaryFree(entry);
    JoinBoundaryFree(Spaces(entry), t.body[0]);
    JoinBoundaryFree(Spaces(entry), t.body[n]);
  }

  /** What a reader finds of the block. */
  lemma RereadBlock(t: Template, entry: nat, nl: string)
    requires t.Valid() && IsNewline(nl)
    ensures var b := t.Render(entry);
            var inner := Reread(b[1..|b| - 1], nl);
            && Reread(b, nl) == [b[0]] + inner + [b[|b| - 1]]
            && (t.markers.Free(inner) <==> t.Harmless())
  {
    hide Strip, SplitLines, BoundaryFree, Reread, Template.Render, Template.Valid, Markers.Free;
    var b := t.Render(entry);
    RenderEnds(t, entry);
    var inner := b[1..|b| - 1];
    RereadAround([b[0]], inner, [b[|b| - 1]], nl);
    FreeReread(inner, nl, t.markers);
    forall i | 0 <= i < |inner|
      ensures t.markers.Free(SplitLines(inner[i] + nl)) <==> t.markers.Free(SplitLines(t.body[i + 1]))
    {
      RenderedFragments(t, entry, nl, i + 1);
    }
    assert forall i | 0 < i < |t.body| - 1 :: inner[i - 1] == b[i];
    assert forall i | 0 < i < |t.body| - 1 ::
        t.markers.Free(SplitLines(t.body[i])) <==> t.markers.Free(SplitLines(inner[i - 1] + nl));
  }

  /** A block of boundary-free lines does no harm. */
  lemma PlainIsHarmless(t: Template)
    requires t.Valid() && AllBoundaryFree(t.body)
    ensures t.Harmless()
  {
    hide Strip, Indent, Blank, SplitLines, BoundaryFree, Defines, Markers.Valid;
    forall i | 0 < i < |t.body| - 1 ensures t.markers.Free(SplitLines(t.body[i])) {
      NoCut(t.body[i]);
    }
  }

  // ---------------------------------------------------------------- the forest

  lemma OutlineInsert(lines: seq<string>, k: nat, block: seq<string>)
    requires k <= |lines|
    ensures OutlineOf(Insert(lines, k, block)) == OutlineOf(lines)[..k] + OutlineOf(block) + OutlineOf(lines)[k..]
  {
  }

  /** What the insertion lemmas of the forest need to know about an install. */
  lemma InstallOutline(rest: seq<string>, t: Template)
    requires t.Valid() && Locate(rest).Some?
    ensures var p := Locate(rest).value;
            var k := InsertAt(rest, p.commands);
            var o, b := OutlineOf(rest), OutlineOf(t.Render(p.entry));
            && IsRegion(o, p.commands, MapEnd(rest, p.commands))
            && (forall j | k <= j < MapEnd(rest, p.commands) :: o[j].None?)
            && (forall j | 0 <= j < |b| :: b[j] == Some(p.entry + Indent(t.body[j])))
            && OutlineOf(Installed(rest, t)) == o[..k] + b + o[k..]
  {
    hide Strip, Indent, Blank, Locate, IsRegion, Scan, TrimBlank, Template.Valid, Template.Render;
    var p := Locate(rest).value;
    var k := InsertAt(rest, p.commands);
    MapIsRegion(rest, p.commands);
    forall j | 0 <= j < |t.body|
      ensures OutlineOf(t.Render(p.entry))[j] == Some(p.entry + Indent(t.body[j]))
    {
      RenderedLine(t, p.entry, j);
    }
    hide MapEnd, Insert;
    OutlineInsert(rest, k, t.Render(p.entry));
  }

  lemma LineOfInsert(lines: seq<string>, k: nat, block: seq<string>, i: nat)
    requires k <= |lines| && i < |Insert(lines, k, block)|
    ensures |Insert(lines, k, block)| == |lines| + |block|
    ensures Insert(lines, k, block)[i]
         == if i < k then lines[i] else if i < k + |block| then block[i - k] else lines[i - |block|]
  {
  }

  /** The block is indented more than `commands:`, and stands before whatever follows its map. */
  lemma BlockIsDeeper(rest: seq<string>, t: Template)
    requires t.Valid() && Locate(rest).Some?
    ensures var p := Locate(rest).value;
            var k := InsertAt(rest, p.commands);
            var o, b := OutlineOf(rest), OutlineOf(t.Render(p.entry));
            && IsRegion(o, p.commands, MapEnd(rest, p.commands))
            && (forall j | k <= j < MapEnd(rest, p.commands) :: o[j].None?)
            && (forall j | 0 <= j < |b| :: b[j].Some? && b[j].value > o[p.commands].value)
            && OutlineOf(Installed(rest, t)) == o[..k] + b + o[k..]
  {
    hide Strip, Indent, Blank, InsertAt, MapEnd, IsRegion, Template.Valid, Template.Render, EntryIndent;
    InstallOutline(rest, t);
  }

  /** Every line the workspace owns keeps its parent. */
  lemma InstallKeepsParents(rest: seq<string>, t: Template, i: nat)
    requires t.Valid() && Locate(rest).Some? && i < |rest| && !Blank(rest[i])
    ensures var k, m := InsertAt(rest, Locate(rest).value.commands), |t.body|;
            var out := Installed(rest, t);
            && 0 <= Moved(i, k, m) < |out| && out[Moved(i, k, m)] == rest[i]
            && Parent(OutlineOf(out), Moved(i, k, m)) == Moved(Parent(OutlineOf(rest), i), k, m)
  {
    hide Strip, Indent, Blank, Locate, InsertAt, MapEnd, IsRegion, Template.Valid, Template.Render;
    var p := Locate(rest).value;
    BlockIsDeeper(rest, t);
    LineOfInsert(rest, InsertAt(rest, p.commands), t.Render(p.entry), Moved(i, InsertAt(rest, p.commands), |t.body|));
    hide Insert;
    InsertKeepsParents(OutlineOf(rest), p.commands, MapEnd(rest, p.commands), InsertAt(rest, p.commands),
                       OutlineOf(t.Render(p.entry)), i);
  }

  /** Every line of the block is under `commands:`. */
  lemma BlockUnderCommands(rest: seq<string>, t: Template, j: nat)
    requires t.Valid() && Locate(rest).Some? && j < |t.body|
    ensures var c := Locate(rest).value.commands;
            var out, at := Installed(rest, t), InsertAt(rest, c) + j;
            && at < |out| && out[at] == t.Render(Locate(rest).value.entry)[j]
            && !Blank(out[at]) && Descends(OutlineOf(out), at, c)
  {
    hide Strip, Indent, Blank, Locate, InsertAt, MapEnd, IsRegion, Descends, Spaces;
    var p := Locate(rest).value;
    var k := InsertAt(rest, p.commands);
    InstallOutline(rest, t);
    RenderedLine(t, p.entry, j);
    InsertedLine(rest, k, t.Render(p.entry), j);
    InsertedDescends(OutlineOf(rest), p.commands, MapEnd(rest, p.commands), k, OutlineOf(t.Render(p.entry)), j);
  }

  /** And so it is under the `pre-commit:` line that opens the section. */
  lemma BlockUnderSection(rest: seq<string>, t: Template, j: nat, s: nat)
    requires t.Valid() && Locate(rest).Some? && j < |t.body|
    requires s < |rest| && "pre-commit:" <= rest[s] && forall i | 0 <= i < s :: !("pre-commit:" <= rest[i])
    ensures var out, at := Installed(rest, t), InsertAt(rest, Locate(rest).value.commands) + j;
            at < |out| && !Blank(out[at]) && s < |out| && out[s] == rest[s] && Descends(OutlineOf(out), at, s)
  {
    hide Strip, Indent, Blank, Locate, InsertAt, Descends, Installed, OutlineOf, Template.Render, Template.Valid;
    var c, out := Locate(rest).value.commands, Installed(rest, t);
    var k := InsertAt(rest, c);
    LocatesExactly(rest, s);
    InstalledPrefix(rest, t);
    PrefixLines(rest, out, k);
    OutlinePrefix(rest, out, k);
    OutlineAt(rest, c);
    OutlineAt(out, c);
    DescendsPrefix(OutlineOf(rest), OutlineOf(out), k, c, s);
    BlockUnderCommands(rest, t, j);
    OutlineAt(out, k + j);
    DescendsTrans(OutlineOf(out), k + j, c, s);
  }

  lemma OutlinePrefix(a: seq<string>, b: seq<string>, k: nat)
    requires k <= |a| && k <= |b| && a[..k] == b[..k]
    ensures OutlineOf(a)[..k] == OutlineOf(b)[..k]
  {
    hide Blank, Indent;
    PrefixLines(a, b, k);
  }

  /** No line of the map is shallower than its first entry. */
  predicate EvenlyIndented(rest: seq<string>, p: Place)
    requires p.commands < |rest|
  {
    forall j | p.commands < j < InsertAt(rest, p.commands) :: !Blank(rest[j]) ==> Indent(rest[j]) >= p.entry
  }

  lemma EvenOutline(rest: seq<string>, p: Place)
    requires p.commands < |rest|
    ensures var o := OutlineOf(rest);
            EvenlyIndented(rest, p)
            <==> forall j | p.commands < j < InsertAt(rest, p.commands) :: o[j].Some? ==> o[j].value >= p.entry
  {
    hide Strip, Indent, Blank, InsertAt;
    var o := OutlineOf(rest);
    assert forall j | 0 <= j < |rest| :: o[j] == if Blank(rest[j]) then None else Some(Indent(rest[j]));
  }

  /** The managed key is an entry of the map, beside the workspace's own, exactly when the
      map has no line shallower than its first entry. */
  lemma KeyIsEntryIff(rest: seq<string>, t: Template)
    requires t.Valid() && Locate(rest).Some?
    ensures var p := Locate(rest).value;
            var out, at := Installed(rest, t), InsertAt(rest, p.commands) + t.keyAt;
            && at < |out| && !Blank(out[at]) && Defines(out[at], t.key)
            && (Parent(OutlineOf(out), at) == p.commands <==> EvenlyIndented(rest, p))
  {
    hide Strip, Indent, Blank, DropColons, Locate, InsertAt, MapEnd;
    var p := Locate(rest).value;
    var k := InsertAt(rest, p.commands);
    InstallOutline(rest, t);
    RenderedLine(t, p.entry, t.keyAt);
    InsertedLine(rest, k, t.Render(p.entry), t.keyAt);
    assert Defines(t.body[t.keyAt], t.key);
    InsertedChildIff(OutlineOf(rest), p.commands, k, OutlineOf(t.Render(p.entry)), t.keyAt);
    assert OutlineOf(t.Render(p.entry))[t.keyAt] == Some(p.entry);
    assert Defines(t.Render(p.entry)[t.keyAt], t.key);
    EvenOutline(rest, p);
  }

  /** The three settings belong to the managed key. */
  lemma SettingsUnderKey(rest: seq<string>, t: Template, j: nat)
    requires t.Valid() && Locate(rest).Some? && t.keyAt < j < |t.body| - 1
    ensures var k := InsertAt(rest, Locate(rest).value.commands);
            var o := OutlineOf(Installed(rest, t));
            k + j < |o| && o[k + j].Some? && Parent(o, k + j) == k + t.keyAt
  {
    hide Strip, Indent, Blank;
    var p := Locate(rest).value;
    InstallOutline(rest, t);
    InsertedGrandchild(OutlineOf(rest), InsertAt(rest, p.commands), OutlineOf(t.Render(p.entry)), t.keyAt, j);
  }

  // ---------------------------------------------------------------- the fixed point

  /** Run on the file just written, block included, the search finds the same map with the
      same entry indent, and the place after it is just after the block. */
  lemma Relocates(rest: seq<string>, t: Template)
    requires t.Valid() && Locate(rest).Some?
    ensures var c := Locate(rest).value.commands;
            var out := Installed(rest, t);
            && Locate(out) == Locate(rest)
            && InsertAt(out, c) == InsertAt(rest, c) + |t.body|
  {
    hide Strip, Indent, Blank, Locate, EntryIndent, InsertAt;
    var p := Locate(rest).value;
    var k := InsertAt(rest, p.commands);
    assert Installed(rest, t)[..k] == rest[..k];
    RelocatesCommands(rest, Installed(rest, t), k);
    RelocatesEntry(rest, t);
    RelocatesEnd(rest, t);
  }

  lemma PrefixLines(rest: seq<string>, out: seq<string>, k: nat)
    requires k <= |rest| && k <= |out| && rest[..k] == out[..k]
    ensures forall j | 0 <= j < k :: rest[j] == out[j]
  {
    forall j | 0 <= j < k ensures rest[j] == out[j] {
      assert rest[..k][j] == out[..k][j];
    }
  }

  /** The `commands:` line is found from the lines up to it alone. */
  lemma RelocatesCommands(rest: seq<string>, out: seq<string>, k: nat)
    requires Locate(rest).Some? && Locate(rest).value.commands < k <= |rest|
    requires k <= |out| && rest[..k] == out[..k]
    ensures Locate(out) == Some(Place(Locate(rest).value.commands, EntryIndent(out, Locate(rest).value.commands)))
  {
    PrefixLines(rest, out, k);
    var start := Scan(rest, 0, OpensPreCommit());
    var c := Locate(rest).value.commands;
    ScanIs(out, 0, OpensPreCommit(), start);
    ScanIs(out, start + 1, StopsSearch(), c);
  }

  lemma RelocatesEntry(rest: seq<string>, t: Template)
    requires t.Valid() && Locate(rest).Some?
    ensures var p := Locate(rest).value; EntryIndent(Installed(rest, t), p.commands) == p.entry
  {
    hide Strip, Indent, Blank, Locate, InsertAt, Scan, EntryIndent, Installed;
    var p := Locate(rest).value;
    var c, k := p.commands, InsertAt(rest, p.commands);
    var out := Installed(rest, t);
    assert k <= |out| && out[..k] == rest[..k] by { InstalledPrefix(rest, t); }
    var first := Scan(rest, c + 1, HasText());
    if first < k {
      EntryIsRead(rest);
      FirstEntryStays(rest, out, c, k);
    } else {
      // no entry yet: the block's first line is the first line of the map
      EmptyMapEntry(rest);
      FirstLineOfBlock(rest, t);
      FirstEntryIs(out, c, k);
    }
  }

  lemma InstalledPrefix(rest: seq<string>, t: Template)
    requires Locate(rest).Some?
    ensures var k := InsertAt(rest, Locate(rest).value.commands);
            k <= |Installed(rest, t)| && Installed(rest, t)[..k] == rest[..k]
  {
    hide Locate, InsertAt, Template.Render;
  }

  lemma FirstLineOfBlock(rest: seq<string>, t: Template)
    requires t.Valid() && Locate(rest).Some?
    ensures var p, out := Locate(rest).value, Installed(rest, t);
            var k := InsertAt(rest, p.commands);
            k < |out| && !Blank(out[k]) && Indent(out[k]) == p.entry
  {
    hide Strip, Indent, Blank, Locate, InsertAt, Template.Render, Defines;
    var p := Locate(rest).value;
    RenderedLine(t, p.entry, 0);
    InsertedLine(rest, InsertAt(rest, p.commands), t.Render(p.entry), 0);
  }

  /** The first non-blank line after `commands:` sets the entry indent. */
  lemma FirstEntryIs(lines: seq<string>, c: nat, first: nat)
    requires c < first < |lines| && !Blank(lines[first])
    requires forall j | c < j < first :: Blank(lines[j])
    ensures Indent(lines[first]) > Indent(lines[c]) ==> EntryIndent(lines, c) == Indent(lines[first])
    ensures Indent(lines[first]) <= Indent(lines[c]) ==> EntryIndent(lines, c) == Indent(lines[c]) + 2
  {
    hide Strip, Indent, Blank;
    ScanIs(lines, c + 1, HasText(), first);
  }

  lemma FirstEntryStays(lines: seq<string>, out: seq<string>, c: nat, k: nat)
    requires c < k <= |lines| && k <= |out| && lines[..k] == out[..k]
    requires Scan(lines, c + 1, HasText()) < k
    ensures EntryIndent(out, c) == EntryIndent(lines, c)
  {
    hide Strip, Indent, Blank, Scan;
    PrefixLines(lines, out, k);
    ScanIs(out, c + 1, HasText(), Scan(lines, c + 1, HasText()));
  }

  lemma EmptyMapEntry(rest: seq<string>)
    requires Locate(rest).Some?
    requires var c := Locate(rest).value.commands; Scan(rest, c + 1, HasText()) >= InsertAt(rest, c)
    ensures var p := Locate(rest).value; p.entry == Indent(rest[p.commands]) + 2
  {
    hide Strip, Indent, Blank;
    var c := Locate(rest).value.commands;
    var first, k, end := Scan(rest, c + 1, HasText()), InsertAt(rest, c), MapEnd(rest, c);
    assert forall j | k <= j < end :: Blank(rest[j]);
    assert first >= end;
    if first < |rest| {
      assert end < |rest| ==> ClosesMap(Indent(rest[c]))(rest[end]);
      assert forall j | c + 1 <= j < first :: !HasText()(rest[j]);
      assert first == end;
    }
  }

  lemma InsertedLine(lines: seq<string>, k: nat, block: seq<string>, j: nat)
    requires k <= |lines| && j < |block|
    ensures k + j < |Insert(lines, k, block)| && Insert(lines, k, block)[k + j] == block[j]
  {
  }

  /** Non-blank lines deeper than `commands:`, put at the end of its map, move that end. */
  lemma InsertMovesEnd(rest: seq<string>, c: nat, k: nat, block: seq<string>)
    requires c < |rest| && k == InsertAt(rest, c) && block != []
    requires forall j | 0 <= j < |block| :: !Blank(block[j]) && Indent(block[j]) > Indent(rest[c])
    ensures Insert(rest, k, block)[c] == rest[c]
    ensures InsertAt(Insert(rest, k, block), c) == k + |block|
  {
    hide Strip, Indent, Blank, Scan, TrimBlank;
    var end, m := MapEnd(rest, c), |block|;
    var out := Insert(rest, k, block);
    var closes := ClosesMap(Indent(rest[c]));
    assert out[c] == rest[c];
    assert forall j | c + 1 <= j < k :: out[j] == rest[j];
    assert forall j | k <= j < k + m :: out[j] == block[j - k];
    assert forall j | k + m <= j < |out| :: out[j] == rest[j - m];
    assert forall j | c + 1 <= j < end + m :: !closes(out[j]);
    ScanIs(out, c + 1, closes, end + m);
    TrimBlankIs(out, c + 1, end + m, k + m);
  }

  lemma RelocatesEnd(rest: seq<string>, t: Template)
    requires t.Valid() && Locate(rest).Some?
    ensures var c := Locate(rest).value.commands;
            InsertAt(Installed(rest, t), c) == InsertAt(rest, c) + |t.body|
  {
    hide Strip, Indent, Blank, Locate;
    var p := Locate(rest).value;
    var c, k, m := p.commands, InsertAt(rest, p.commands), |t.body|;
    var block := t.Render(p.entry);
    forall j | 0 <= j < m ensures !Blank(block[j]) && Indent(block[j]) > Indent(rest[c]) {
      RenderedLine(t, p.entry, j);
    }
    InsertMovesEnd(rest, c, k, block);
  }

  /** After an install exactly one line of the file defines the managed key. */
  lemma OneDefinition(rest: seq<string>, t: Template, i: nat)
    requires t.Valid() && Locate(rest).Some? && !Collides(rest, t.key)
    requires i < |Installed(rest, t)|
    ensures Defines(Installed(rest, t)[i], t.key)
       <==> i == InsertAt(rest, Locate(rest).value.commands) + t.keyAt
  {
    hide Defines, Locate, InsertAt, Insert, Template.Valid, Template.Render;
    var p := Locate(rest).value;
    var k := InsertAt(rest, p.commands);
    KeyInBlock(t);
    LineOfInsert(rest, k, t.Render(p.entry), i);
    if k <= i < k + |t.body| {
      RenderedKey(t, p.entry, i - k);
    }
  }

  lemma KeyInBlock(t: Template)
    requires t.Valid()
    ensures t.keyAt < |t.body|
  {
    hide Markers.Valid, Defines, Blank, Indent;
  }

  lemma RenderedKey(t: Template, entry: nat, i: nat)
    requires t.Valid() && i < |t.body|
    ensures Defines(t.Render(entry)[i], t.key) <==> i == t.keyAt
  {
    hide Strip, Blank, Indent, DropColons, Template.Render;
    RenderedLine(t, entry, i);
  }
}
