/** Installing, refreshing, checking and removing the hook block
    (scripts/install_workspace_hooks.py, `_install` and `_defer_to_lore_eden`). */
module HookInstaller {
  import opened Lines
  import opened Text
  import opened ManagedBlock
  import opened Forest
  import opened CommandsMap
  import opened HookBlock
  import opened Files

  predicate HasLine(lines: seq<string>, marker: string) {
    exists i | 0 <= i < |lines| :: Strip(lines[i]) == marker
  }

  /** `_install` once the file has been read. */
  function LinesVerdict(original: seq<string>, nl: string, t: Template, check: bool): Verdict {
    match SplitBlock(original, t.markers)
    case Refused => Exit(1)
    case Split(rest, existing) =>
      if HasLine(rest, t.eden) then
        if existing == [] then Exit(0) else if check then Exit(1) else Write(rest, nl)
      else if Locate(rest).None? || Collides(rest, t.key) then Exit(1)
      else if existing == t.Render(Locate(rest).value.entry) then Exit(0)
      else if check then Exit(1)
      else Write(Installed(rest, t), nl)
  }

  /** A missing file is an uncaught error, a link and undecodable bytes are refusals. */
  function Decide(node: Node, t: Template, check: bool): Verdict {
    match node
    case Missing => Exit(1)
    case Link(_) => Exit(1)
    case Regular(File(NotUtf8(_), _)) => Exit(1)
    case Regular(File(Utf8(text), _)) => LinesVerdict(SplitLines(text), NewlineOf(text), t, check)
  }

  /** The path after a run in which nothing failed. */
  function Step(node: Node, t: Template, check: bool): Node {
    match Decide(node, t, check)
    case Exit(_) => node
    case Write(lines, nl) => Written(node, lines, nl, 0)
  }

  /** The installer itself, over the directory it writes to. */
  method Install(dir: Directory, t: Template, check: bool, how: Circumstances) returns (code: nat)
    requires how.temp !in dir.temps
    modifies dir
    ensures dir.temps == old(dir.temps)
    ensures how.fault == NoFault ==> dir.target == Step(old(dir.target), t, check)
    ensures how.fault == NoFault ==>
              code == match Decide(old(dir.target), t, check) case Exit(n) => n case Write(_, _) => 0
    ensures dir.target == old(dir.target) || (code == 0 && dir.target == Step(old(dir.target), t, check))
    ensures old(dir.history) <= dir.history
    ensures forall i | |old(dir.history)| <= i < |dir.history| ::
              dir.history[i].target in {old(dir.target), Step(old(dir.target), t, check)}
    ensures check || Decide(old(dir.target), t, check).Exit? ==>
              dir.target == old(dir.target) && dir.history == old(dir.history)
  {
    hide LinesVerdict;
    match dir.target {
      case Missing => return 1;
      case Link(_) => return 1;
      case Regular(File(NotUtf8(_), _)) => return 1;
      case Regular(File(Utf8(text), _)) =>
        var original, nl := SplitLines(text), NewlineOf(text);
        code := InstallLines(dir, original, nl, t, check, how);
    }
  }

  method InstallLines(dir: Directory, original: seq<string>, nl: string, t: Template, check: bool,
                      how: Circumstances) returns (code: nat)
    requires how.temp !in dir.temps && dir.target.Regular?
    modifies dir
    ensures dir.temps == old(dir.temps)
    ensures LinesVerdict(original, nl, t, check).Exit? ==>
              && code == LinesVerdict(original, nl, t, check).code
              && dir.target == old(dir.target) && dir.history == old(dir.history)
    ensures LinesVerdict(original, nl, t, check).Write? ==>
              var v := LinesVerdict(original, nl, t, check);
              var replaced := Written(old(dir.target), v.lines, v.nl, 0);
              && !check
              && (how.fault == NoFault ==> code == 0 && dir.target == replaced)
              && (dir.target == old(dir.target) || (code == 0 && dir.target == replaced))
              && old(dir.history) <= dir.history
              && forall i | |old(dir.history)| <= i < |dir.history| ::
                   dir.history[i].target in {old(dir.target), replaced}
  {
    hide Strip, Indent, Blank;
    var split := SplitBlock(original, t.markers);
    if split.Refused? {
      return 1;
    }
    var rest, existing := split.rest, split.block;
    var lines := rest;
    if HasLine(rest, t.eden) {
      if existing == [] {
        return 0;
      }
      if check {
        return 1;
      }
    } else {
      var located := FindCommandsMap(rest);
      if located.None? || Collides(rest, t.key) {
        return 1;
      }
      var block := t.Render(located.value.entry);
      if existing == block {
        return 0;
      }
      if check {
        return 1;
      }
      var at := EndOfCommandsMap(rest, located.value.commands);
      lines := rest[..at] + block + rest[at..];
    }
    var outcome := dir.WriteLines(lines, nl, how);
    code := if outcome == Done then 0 else 1;
  }

  // ---------------------------------------------------------------- what a run writes

  /** Lines of the workspace's own the installer does not refuse. */
  ghost predicate Accepts(rest: seq<string>, t: Template) {
    && t.markers.Free(rest) && AllBoundaryFree(rest)
    && (HasLine(rest, t.eden) || (Locate(rest).Some? && !Collides(rest, t.key)))
  }

  /** The lines these own lines settle to: themselves beside lore-eden's gates, and the
      configuration with the block in it otherwise. */
  ghost function Settled(rest: seq<string>, t: Template): seq<string> {
    if HasLine(rest, t.eden) || Locate(rest).None? then rest else Installed(rest, t)
  }

  /** The workspace's own lines, when the file can be split. */
  ghost function Own(node: Node, m: Markers): Option<seq<string>> {
    match TextOf(node)
    case None => None
    case Some(text) =>
      match SplitBlock(SplitLines(text), m)
      case Refused => None
      case Split(rest, _) => Some(rest)
  }

  /** The one file for these own lines and this checkout. */
  ghost function Canonical(rest: seq<string>, nl: string, mode: bv12, t: Template): Node {
    Regular(File(Utf8(WriteText(Settled(rest, t), nl)), mode & 0x1FF))
  }

  /** The block as a reader finds it. */
  ghost function Landed(rest: seq<string>, t: Template, nl: string): seq<string>
    requires Locate(rest).Some?
  {
    Reread(t.Render(Locate(rest).value.entry), nl)
  }

  lemma InstalledStarts(rest: seq<string>, t: Template)
    requires Locate(rest).Some? && AllBoundaryFree(rest)
    ensures Installed(rest, t) != [] && BoundaryFree(Installed(rest, t)[0])
  {
    hide Locate, InsertAt, BoundaryFree, Template.Render;
  }

  /** The installed configuration, written and read: it can be split exactly when no line of
      the block breaks into a marker, and then the own lines are what they were. */
  lemma InstalledReread(rest: seq<string>, t: Template, nl: string)
    requires t.Valid() && Locate(rest).Some? && AllBoundaryFree(rest) && t.markers.Free(rest) && IsNewline(nl)
    ensures NewlineOf(WriteText(Installed(rest, t), nl)) == nl
    ensures SplitBlock(SplitLines(WriteText(Installed(rest, t), nl)), t.markers)
         == if t.Harmless() then Split(rest, Landed(rest, t, nl)) else Refused
  {
    hide Locate, InsertAt, BoundaryFree, Strip, SplitBlock, SplitLines, Reread, WriteText, NewlineOf;
    hide Template.Render, Template.Valid, Template.Harmless, Markers.Free;
    var p := Locate(rest).value;
    var k, b := InsertAt(rest, p.commands), t.Render(p.entry);
    var a, c := rest[..k], rest[k..];
    assert rest == a + c;
    BoundaryFreeParts(a, c);
    FreeJoin(a, c, t.markers);
    InstalledStarts(rest, t);
    NewlineOfWritten(Installed(rest, t), nl);
    RereadWritten(Installed(rest, t), nl);
    RereadAround(a, b, c, nl);
    RereadBlock(t, p.entry, nl);
    RenderEnds(t, p.entry);
    assert t.markers.Valid() by { ValidMarkers(t); }
    SplitAround(a, b[0], Reread(b[1..|b| - 1], nl), b[|b| - 1], c, t.markers);
  }

  lemma ValidMarkers(t: Template)
    requires t.Valid()
    ensures t.markers.Valid()
  {
    hide Markers.Valid, Defines, Blank, Indent, BoundaryFree, EndsVisibly;
  }

  /** The block is read back as it was rendered exactly when it is made of lines. */
  lemma LandedIff(rest: seq<string>, t: Template, nl: string)
    requires t.Valid() && Locate(rest).Some? && IsNewline(nl)
    ensures Landed(rest, t, nl) == t.Render(Locate(rest).value.entry) <==> AllBoundaryFree(t.body)
  {
    hide Locate, Reread, BoundaryFree, Template.Valid, Template.Render;
    var p := Locate(rest).value;
    RereadIff(t.Render(p.entry), nl);
    RenderBoundaryFree(t, p.entry);
  }

  /** The same installer for another checkout. */
  ghost predicate Sibling(t: Template, t': Template) {
    && t.Valid() && t'.Valid()
    && t.markers == t'.markers && t.eden == t'.eden && t.key == t'.key && |t.body| == |t'.body|
  }

  /** What any run decides about a file that an install left. */
  lemma CanonicalVerdict(rest: seq<string>, nl: string, mode: bv12, t: Template, t': Template, check: bool)
    requires Sibling(t, t') && Accepts(rest, t) && IsNewline(nl)
    ensures Decide(Canonical(rest, nl, mode, t), t', check)
         == if HasLine(rest, t.eden) then Exit(0)
            else if !t.Harmless() then Exit(1)
            else if Landed(rest, t, nl) == t'.Render(Locate(rest).value.entry) then Exit(0)
            else if check then Exit(1) else Write(Installed(rest, t'), nl)
    ensures Own(Canonical(rest, nl, mode, t), t.markers)
         == if HasLine(rest, t.eden) || t.Harmless() then Some(rest) else None
    ensures EndingAndMode(Canonical(rest, nl, mode, t)) == Some((nl, mode & 0x1FF))
  {
    hide SplitBlock, Locate, InsertAt, Installed, Strip, Collides;
    hide SplitLines, WriteText, NewlineOf, BoundaryFree, Reread;
    hide Template.Valid, Template.Harmless, Template.Render;
    if HasLine(rest, t.eden) {
      ReadWritten(rest, nl);
      SplitOfFree(rest, t.markers);
    } else {
      InstalledReread(rest, t, nl);
    }
  }

  /** A run that writes leaves the one file for the own lines and its checkout. */
  lemma WriteReadsBack(node: Node, t: Template)
    requires t.Valid() && Decide(node, t, false).Write?
    ensures TextOf(node).Some? && Own(node, t.markers).Some?
    ensures var rest, nl := Own(node, t.markers).value, NewlineOf(TextOf(node).value);
            && Accepts(rest, t) && Decide(node, t, false).lines != []
            && Step(node, t, false) == Canonical(rest, nl, node.file.mode, t)
            && Own(Step(node, t, false), t.markers)
               == (if HasLine(rest, t.eden) || t.Harmless() then Some(rest) else None)
            && (HasLine(rest, t.eden) || AllBoundaryFree(t.body) ==>
                  SplitLines(TextOf(Step(node, t, false)).value) == Decide(node, t, false).lines)
  {
    hide SplitBlock, Locate, InsertAt, Installed, Strip, Collides;
    hide SplitLines, WriteText, NewlineOf, BoundaryFree, Reread;
    hide Template.Valid, Template.Harmless, Template.Render;
    var text := TextOf(node).value;
    var lines, nl := SplitLines(text), NewlineOf(text);
    ValidMarkers(t);
    SplitBoundaryFree(lines, t.markers);
    var rest := SplitBlock(lines, t.markers).rest;
    CanonicalVerdict(rest, nl, node.file.mode, t, t, false);
    if HasLine(rest, t.eden) {
      ReadWritten(rest, nl);
    } else {
      InstalledStarts(rest, t);
      InstalledPlain(rest, t);
      WrittenSurvivesIff(Installed(rest, t), nl);
    }
  }

  /** The own lines up to the end of the map, the block, and the rest of them. */
  lemma InstalledIs(rest: seq<string>, t: Template) returns (a: seq<string>, c: seq<string>)
    requires Locate(rest).Some?
    ensures rest == a + c && |a| == InsertAt(rest, Locate(rest).value.commands)
    ensures Installed(rest, t) == a + t.Render(Locate(rest).value.entry) + c
  {
    hide *;
    var p := Locate(rest).value;
    var k := InsertAt(rest, p.commands);
    a, c := rest[..k], rest[k..];
    InstalledInserts(rest, t);
    InsertIs(rest, k, t.Render(p.entry));
  }

  lemma InstalledInserts(rest: seq<string>, t: Template)
    requires Locate(rest).Some?
    ensures var p := Locate(rest).value;
            Installed(rest, t) == Insert(rest, InsertAt(rest, p.commands), t.Render(p.entry))
  {
    hide Locate, InsertAt, Insert, Template.Render;
  }

  lemma InsertIs(lines: seq<string>, k: nat, block: seq<string>)
    requires k <= |lines|
    ensures Insert(lines, k, block) == lines[..k] + block + lines[k..] && lines == lines[..k] + lines[k..]
  {
  }

  lemma InstalledPlain(rest: seq<string>, t: Template)
    requires t.Valid() && Locate(rest).Some? && AllBoundaryFree(rest)
    ensures AllBoundaryFree(Installed(rest, t)) <==> AllBoundaryFree(t.body)
  {
    hide Locate, InsertAt, AllBoundaryFree, Installed, Template.Render, Template.Valid;
    var a, c := InstalledIs(rest, t);
    var b := t.Render(Locate(rest).value.entry);
    RenderBoundaryFree(t, Locate(rest).value.entry);
    BoundaryFreeParts(a, c);
    BoundaryFreeParts(a, b);
    BoundaryFreeParts(a + b, c);
  }

  /** A file of accepted lines, with no block in it yet, gets one. */
  lemma FirstInstall(rest: seq<string>, nl: string, mode: bv12, t: Template)
    requires t.Valid() && Accepts(rest, t) && !HasLine(rest, t.eden) && IsNewline(nl) && rest != []
    ensures var node := Regular(File(Utf8(WriteText(rest, nl)), mode));
            Own(node, t.markers) == Some(rest) && Decide(node, t, false) == Write(Installed(rest, t), nl)
  {
    hide SplitBlock, Locate, Installed, Strip, Collides, SplitLines, WriteText, NewlineOf, BoundaryFree, HasLine;
    hide Template.Render;
    ReadWritten(rest, nl);
    SplitOfFree(rest, t.markers);
    KeyInBlock(t);
    hide Template.Valid;
    assert t.Render(Locate(rest).value.entry) != [];
  }

  // ---------------------------------------------------------------- one run and the next

  ghost predicate Succeeds(v: Verdict) {
    v.Write? || v == Exit(0)
  }

  /** A line is the marker between white space. */
  lemma HasLineIff(lines: seq<string>, marker: string)
    requires Trimmed(marker)
    ensures HasLine(lines, marker) <==> exists i | 0 <= i < |lines| :: Padded(lines[i], marker)
  {
    hide Strip, Padded, Trimmed;
    forall i | 0 <= i < |lines| ensures Strip(lines[i]) == marker <==> Padded(lines[i], marker) {
      StripsToIff(lines[i], marker);
    }
  }

  lemma CollidesIff(lines: seq<string>, name: string)
    requires name != "" && name[0] != '#' && name[|name| - 1] != ':'
    ensures Collides(lines, name) <==> exists i | 0 <= i < |lines| :: NameAndColons(Strip(lines[i]), name)
  {
    hide Strip, Defines, NameAndColons;
    forall i | 0 <= i < |lines| ensures Defines(lines[i], name) <==> NameAndColons(Strip(lines[i]), name) {
      DefinesIff(lines[i], name);
    }
  }

  /** An install returns 0 exactly when the file is text that can be split and, outside the
      block, either lore-eden's marker is there, or a map is found and no line is the managed
      key and colons. What the block looks like does not matter. */
  lemma SucceedsIff(node: Node, t: Template)
    requires Trimmed(t.eden) && t.key != "" && t.key[0] != '#' && t.key[|t.key| - 1] != ':'
    ensures Succeeds(Decide(node, t, false)) || Decide(node, t, false) == Exit(1)
    ensures Succeeds(Decide(node, t, false)) <==>
              && node.Regular? && node.file.content.Utf8?
              && var s := SplitBlock(SplitLines(node.file.content.text), t.markers);
                 && s.Split?
                 && ((exists i | 0 <= i < |s.rest| :: Padded(s.rest[i], t.eden))
                     || (Locate(s.rest).Some?
                         && !exists i | 0 <= i < |s.rest| :: NameAndColons(Strip(s.rest[i]), t.key)))
  {
    hide SplitBlock, SplitLines, Locate, Strip, Padded, NameAndColons, Trimmed, HasLine, Collides, Installed;
    if node.Regular? && node.file.content.Utf8? {
      var s := SplitBlock(SplitLines(node.file.content.text), t.markers);
      if s.Split? {
        HasLineIff(s.rest, t.eden);
        CollidesIff(s.rest, t.key);
      }
    }
  }

  /** A file an install would leave alone holds a block made of lines. */
  lemma CurrentIsPlain(node: Node, t: Template)
    requires t.Valid() && Decide(node, t, false) == Exit(0)
    ensures Own(node, t.markers).Some?
    ensures !HasLine(Own(node, t.markers).value, t.eden) ==> AllBoundaryFree(t.body) && t.Harmless()
    ensures Decide(node, t, true) == Exit(0)
  {
    hide SplitBlock, Locate, Strip, Collides, SplitLines, NewlineOf, BoundaryFree;
    hide Template.Valid, Template.Harmless, Template.Render;
    var lines := SplitLines(TextOf(node).value);
    ValidMarkers(t);
    SplitBoundaryFree(lines, t.markers);
    var rest := SplitBlock(lines, t.markers).rest;
    if !HasLine(rest, t.eden) {
      RenderBoundaryFree(t, Locate(rest).value.entry);
      PlainIsHarmless(t);
    }
  }

  /** Byte for byte, mode included, a second run changes nothing: whatever the file, and
      whatever the checkout's path. */
  lemma SameBytes(node: Node, t: Template)
    requires t.Valid()
    ensures Step(Step(node, t, false), t, false) == Step(node, t, false)
  {
    hide Own, Accepts, Canonical, Settled, Template.Valid, Template.Harmless, Landed, LinesVerdict;
    if Decide(node, t, false).Write? {
      WriteReadsBack(node, t);
      var rest, nl := Own(node, t.markers).value, NewlineOf(TextOf(node).value);
      CanonicalVerdict(rest, nl, node.file.mode, t, t, false);
      if !HasLine(rest, t.eden) {
        CanonicalRewritten(rest, nl, node.file.mode, t, t);
      }
    }
  }

  lemma CanonicalRewritten(rest: seq<string>, nl: string, mode: bv12, t: Template, t': Template)
    requires Sibling(t, t') && Accepts(rest, t) && !HasLine(rest, t.eden)
    ensures Written(Canonical(rest, nl, mode, t), Installed(rest, t'), nl, 0) == Canonical(rest, nl, mode, t')
  {
    hide Installed, Locate, WriteText, Template.Valid;
  }

  /** Idempotence: after a run that returned 0 the same run leaves the identical file, and
      returns 0 exactly when lore-eden's gates have displaced the block or no line of the
      block breaks into a marker. */
  lemma Idempotent(node: Node, t: Template)
    requires t.Valid() && Succeeds(Decide(node, t, false))
    ensures Own(node, t.markers).Some?
    ensures var node' := Step(node, t, false);
            && Step(node', t, false) == node'
            && (Succeeds(Decide(node', t, false))
                <==> HasLine(Own(node, t.markers).value, t.eden) || t.Harmless())
  {
    hide Own, Accepts, Canonical, Settled, Template.Valid, Template.Harmless, Landed, LinesVerdict, HasLine;
    SameBytes(node, t);
    if Decide(node, t, false).Write? {
      WriteReadsBack(node, t);
      var rest, nl := Own(node, t.markers).value, NewlineOf(TextOf(node).value);
      CanonicalVerdict(rest, nl, node.file.mode, t, t, false);
    } else {
      CurrentIsPlain(node, t);
    }
  }

  /** `--check` never writes, and it returns 0 exactly when an install would return 0
      without writing: when lore-eden's gates stand alone, or when the file's block is the
      one this checkout renders and nothing else claims its key. */
  lemma CheckIsExact(node: Node, t: Template)
    ensures Decide(node, t, true).Exit? && Step(node, t, true) == node
    ensures Decide(node, t, true).code == 0 <==> Decide(node, t, false) == Exit(0)
    ensures Decide(node, t, true).code == 0 <==>
              && Own(node, t.markers).Some?
              && var rest := Own(node, t.markers).value;
                 var existing := SplitBlock(SplitLines(TextOf(node).value), t.markers).block;
                 if HasLine(rest, t.eden) then existing == []
                 else Locate(rest).Some? && !Collides(rest, t.key)
                      && existing == t.Render(Locate(rest).value.entry)
  {
    hide SplitBlock, Locate, Strip, Collides, SplitLines, NewlineOf;
  }

  /** `--check` agrees with the install before it exactly when lore-eden's gates have
      displaced the block or the block is made of lines. */
  lemma CheckAfterInstallIff(node: Node, t: Template)
    requires t.Valid() && Succeeds(Decide(node, t, false))
    ensures Own(node, t.markers).Some?
    ensures Decide(Step(node, t, false), t, true) == Exit(0)
       <==> HasLine(Own(node, t.markers).value, t.eden) || AllBoundaryFree(t.body)
  {
    hide Own, Accepts, Canonical, Settled, Template.Valid, Template.Harmless, LinesVerdict, HasLine, Locate, Reread;
    hide BoundaryFree;
    if Decide(node, t, false).Write? {
      WriteReadsBack(node, t);
      var rest, nl := Own(node, t.markers).value, NewlineOf(TextOf(node).value);
      CanonicalVerdict(rest, nl, node.file.mode, t, t, true);
      if !HasLine(rest, t.eden) {
        assert Locate(rest).Some? by { AcceptedIsLocated(rest, t); }
        LandedIff(rest, t, nl);
        if AllBoundaryFree(t.body) {
          PlainIsHarmless(t);
        }
      }
    } else {
      CurrentIsPlain(node, t);
    }
  }

  lemma AcceptedIsLocated(rest: seq<string>, t: Template)
    requires Accepts(rest, t) && !HasLine(rest, t.eden)
    ensures Locate(rest).Some?
  {
    hide Locate, HasLine;
  }

  /** "Already current" compares the block and not where it sits: a run that returns 0
      without writing leaves the file an install would write exactly when nobody has moved
      the block away from the end of the map. */
  lemma CurrentInPlaceIff(node: Node, t: Template, a: seq<string>, block: seq<string>, c: seq<string>)
    requires t.Valid() && TextOf(node).Some? && Decide(node, t, false) == Exit(0) && !HasLine(a + c, t.eden)
    requires t.markers.Decomposes(SplitLines(TextOf(node).value), a, block, c)
    ensures Locate(a + c).Some?
    ensures SplitLines(TextOf(node).value) == Installed(a + c, t)
       <==> |a| == InsertAt(a + c, Locate(a + c).value.commands)
  {
    hide *;
    CurrentBlock(node, t, a, block, c);
    var a', c' := InstalledIs(a + c, t);
    SamePlaceIff(a, block, c, a', c', t.markers);
  }

  lemma CurrentBlock(node: Node, t: Template, a: seq<string>, block: seq<string>, c: seq<string>)
    requires t.Valid() && TextOf(node).Some? && Decide(node, t, false) == Exit(0) && !HasLine(a + c, t.eden)
    requires t.markers.Decomposes(SplitLines(TextOf(node).value), a, block, c)
    ensures t.markers.Valid() && t.markers.Decomposes(a + block + c, a, block, c)
    ensures SplitLines(TextOf(node).value) == a + block + c
    ensures Locate(a + c).Some? && t.Render(Locate(a + c).value.entry) == block
  {
    hide SplitBlock, Locate, InsertAt, Strip, Collides, SplitLines, NewlineOf, Markers.Free, Markers.Delimits;
    hide Installed, Template.Render, Template.Valid;
    ValidMarkers(t);
    SplitOfDecomposed(SplitLines(TextOf(node).value), a, block, c, t.markers);
  }

  /** A block stands at one place only. */
  lemma SamePlaceIff(a: seq<string>, block: seq<string>, c: seq<string>, a': seq<string>, c': seq<string>, m: Markers)
    requires m.Valid() && m.Decomposes(a + block + c, a, block, c) && a + c == a' + c'
    ensures a + block + c == a' + block + c' <==> |a| == |a'|
  {
    var rest := a + c;
    hide Strip, Markers.Delimits, Markers.Valid;
    assert m.Free(a) && m.Free(c) && m.Delimits(block);
    FreeJoin(a, c, m);
    FreeJoin(a', c', m);
    hide Markers.Free;
    if |a| == |a'| {
      assert a == rest[..|a|] && c == rest[|a|..] && a' == rest[..|a|] && c' == rest[|a|..];
    } else if a + block + c == a' + block + c' {
      DecompositionUnique(a + block + c, m, a, block, c, a', block, c');
    }
  }

  /** Killed at any step and run again, an install ends with the bytes, and the mode, of the
      run that was not killed. (`Install` leaves the path as one of these two nodes.) */
  lemma KilledThenRerun(node: Node, t: Template, killed: Node)
    requires t.Valid() && killed in {node, Step(node, t, false)}
    ensures Step(killed, t, false) == Step(node, t, false)
  {
    SameBytes(node, t);
  }

  // ---------------------------------------------------------------- every sequence of runs

  /** One run of the installer from some checkout. */
  datatype Op = Op(t: Template, check: bool)

  /** Every run is of the same installer: only the checkout differs. */
  ghost predicate SameInstaller(ops: seq<Op>, t: Template) {
    forall i | 0 <= i < |ops| :: Sibling(t, ops[i].t)
  }

  ghost predicate AllHarmless(ops: seq<Op>) {
    forall i | 0 <= i < |ops| :: ops[i].check || ops[i].t.Harmless()
  }

  ghost function RunAll(node: Node, ops: seq<Op>): Node {
    if ops == [] then node
    else
      var op := ops[|ops| - 1];
      Step(RunAll(node, ops[..|ops| - 1]), op.t, op.check)
  }

  /** A run keeps the line ending and the permission bits, and the own lines unless it
      writes a block that breaks into a marker. */
  lemma StepPreserves(node: Node, t: Template, check: bool)
    requires t.Valid()
    ensures EndingAndMode(Step(node, t, check)) == EndingAndMode(node)
    ensures Own(Step(node, t, check), t.markers)
         == if Decide(node, t, check).Write? && !HasLine(Own(node, t.markers).value, t.eden) && !t.Harmless()
            then None else Own(node, t.markers)
    ensures check || t.Harmless() ==> Own(Step(node, t, check), t.markers) == Own(node, t.markers)
  {
    hide Own, Accepts, Canonical, Settled, Template.Valid, Template.Harmless, LinesVerdict, HasLine, Locate, Reread;
    CheckIsExact(node, t);
    if Decide(node, t, check).Write? {
      WriteReadsBack(node, t);
      CanonicalVerdict(Own(node, t.markers).value, NewlineOf(TextOf(node).value), node.file.mode, t, t, false);
    }
  }

  /** Over every sequence of runs, from any checkouts, the line ending and the permission
      bits never change, and the workspace's own lines are what they were, or the file is
      refused, which takes a block that breaks into a marker. */
  lemma {:induction false} RunsPreserve(node: Node, ops: seq<Op>, t: Template)
    requires SameInstaller(ops, t)
    ensures EndingAndMode(RunAll(node, ops)) == EndingAndMode(node)
    ensures Own(RunAll(node, ops), t.markers) in {Own(node, t.markers), None}
    ensures AllHarmless(ops) ==> Own(RunAll(node, ops), t.markers) == Own(node, t.markers)
  {
    hide Step, Own, EndingAndMode, Template.Valid, Template.Harmless, Decide, HasLine;
    if ops == [] {
    } else {
      var op := ops[|ops| - 1];
      RunsPreserve(node, ops[..|ops| - 1], t);
      StepPreserves(RunAll(node, ops[..|ops| - 1]), op.t, op.check);
      if Own(RunAll(node, ops[..|ops| - 1]), t.markers).None? {
        RefusedStays(RunAll(node, ops[..|ops| - 1]), op.t, op.check);
      }
    }
  }

  lemma RefusedStays(node: Node, t: Template, check: bool)
    requires Own(node, t.markers).None?
    ensures Decide(node, t, check) == Exit(1)
  {
    hide SplitBlock, SplitLines, NewlineOf, HasLine, Locate, Collides;
  }

  /** The checkout whose block stands in the file: the last install's, except that no run
      gets past a block that breaks into a marker. */
  ghost function Standing(t: Template, ops: seq<Op>): Template {
    if ops == [] then t
    else
      var op, before := ops[|ops| - 1], Standing(t, ops[..|ops| - 1]);
      if op.check || !before.Harmless() then before else op.t
  }

  /** The checkout of the last run that was not a check. */
  ghost function LastInstall(t: Template, ops: seq<Op>): Template {
    if ops == [] then t
    else if !ops[|ops| - 1].check then ops[|ops| - 1].t
    else LastInstall(t, ops[..|ops| - 1])
  }

  lemma {:induction false} StandingIsLast(t: Template, ops: seq<Op>)
    requires t.Harmless() && AllHarmless(ops)
    ensures Standing(t, ops) == LastInstall(t, ops) && LastInstall(t, ops).Harmless()
  {
    hide Template.Harmless;
    if ops == [] {
    } else {
      StandingIsLast(t, ops[..|ops| - 1]);
    }
  }

  /** A block read back as another checkout's has that checkout's lines. */
  lemma LandedElsewhere(rest: seq<string>, nl: string, t: Template, t': Template)
    requires Sibling(t, t') && Locate(rest).Some? && IsNewline(nl)
    requires Landed(rest, t, nl) == t'.Render(Locate(rest).value.entry)
    ensures Installed(rest, t) == Installed(rest, t')
  {
    hide Locate, InsertAt, Reread, BoundaryFree, Strip, Blank;
    hide Indent, Defines, Markers.Valid, IsBoundary, Template.Valid;
    var entry := Locate(rest).value.entry;
    forall i | 0 <= i < |t.body| ensures EndsVisibly(t.Render(entry)[i]) {
      RenderedEnds(t, entry, i);
    }
    RereadLength(t.Render(entry), nl);
    RereadPlain(t.Render(entry), nl);
  }

  lemma RenderedEnds(t: Template, entry: nat, i: nat)
    requires t.Valid() && i < |t.body|
    ensures EndsVisibly(t.Render(entry)[i])
  {
    hide Strip, Blank, Indent, Defines, Markers.Valid, IsBoundary;
    RenderedLine(t, entry, i);
    var s, line := t.body[i], t.Render(entry)[i];
    assert line[|line| - 1] == s[|s| - 1];
  }

  lemma StepFromCanonical(rest: seq<string>, nl: string, mode: bv12, t: Template, op: Op)
    requires Sibling(t, op.t) && Accepts(rest, t) && IsNewline(nl)
    ensures Step(Canonical(rest, nl, mode, t), op.t, op.check)
         == Canonical(rest, nl, mode, if op.check || !t.Harmless() then t else op.t)
  {
    hide Template.Valid, Template.Harmless, Landed, Installed, Locate;
    hide HasLine, Decide, WriteText, Collides, BoundaryFree;
    CanonicalVerdict(rest, nl, mode, t, op.t, op.check);
    if !HasLine(rest, t.eden) && t.Harmless() && !op.check {
      if Landed(rest, t, nl) == op.t.Render(Locate(rest).value.entry) {
        LandedElsewhere(rest, nl, t, op.t);
      } else {
        CanonicalRewritten(rest, nl, mode, t, op.t);
      }
    }
  }

  lemma {:induction false} RunsFromCanonical(rest: seq<string>, nl: string, mode: bv12, t: Template, ops: seq<Op>)
    requires t.Valid() && SameInstaller(ops, t) && Accepts(rest, t) && IsNewline(nl)
    ensures Sibling(t, Standing(t, ops))
    ensures RunAll(Canonical(rest, nl, mode, t), ops) == Canonical(rest, nl, mode, Standing(t, ops))
  {
    hide Step, Canonical, Template.Valid, Template.Harmless, AllBoundaryFree, Markers.Free, HasLine, Locate, Collides;
    if ops == [] {
    } else {
      var op, before := ops[|ops| - 1], ops[..|ops| - 1];
      RunsFromCanonical(rest, nl, mode, t, before);
      StepFromCanonical(rest, nl, mode, Standing(t, before), op);
    }
  }

  /** History independence: once a run has written, whatever installs and checks follow, the
      file is determined by the workspace's own lines, its line ending, its permission bits
      and the checkout whose block stands; which is the last install's when no block breaks
      into a marker. */
  lemma HistoryIndependent(node: Node, t: Template, ops: seq<Op>)
    requires t.Valid() && SameInstaller(ops, t)
    requires Decide(node, t, false).Write?
    ensures var rest, nl := Own(node, t.markers).value, NewlineOf(TextOf(node).value);
            && Accepts(rest, t)
            && RunAll(Step(node, t, false), ops) == Canonical(rest, nl, node.file.mode, Standing(t, ops))
    ensures t.Harmless() && AllHarmless(ops) ==> Standing(t, ops) == LastInstall(t, ops)
  {
    hide Own, Accepts, Canonical, Template.Valid, Template.Harmless, Decide;
    hide Step, RunAll, Standing, LastInstall, AllHarmless;
    WriteReadsBack(node, t);
    RunsFromCanonical(Own(node, t.markers).value, NewlineOf(TextOf(node).value), node.file.mode, t, ops);
    if t.Harmless() && AllHarmless(ops) {
      StandingIsLast(t, ops);
    }
  }

  /** Once lore-eden's gates are in the file, wherever they were put around the block, the
      next install leaves exactly the lines outside the block. */
  lemma RemovalRestores(node: Node, t: Template, a: seq<string>, block: seq<string>, c: seq<string>)
    requires t.Valid() && TextOf(node).Some?
    requires t.markers.Decomposes(SplitLines(TextOf(node).value), a, block, c) && HasLine(a + c, t.eden)
    ensures Step(node, t, false) == Written(node, a + c, NewlineOf(TextOf(node).value), 0)
    ensures SplitLines(TextOf(Step(node, t, false)).value) == a + c
  {
    hide SplitBlock, Locate, Strip, Collides, SplitLines, WriteText, NewlineOf, BoundaryFree;
    ValidMarkers(t);
    SplitOfDecomposed(SplitLines(TextOf(node).value), a, block, c, t.markers);
    SplitBoundaryFree(SplitLines(TextOf(node).value), t.markers);
    ReadWritten(a + c, NewlineOf(TextOf(node).value));
  }
}
