/** The block's actual wording, and that the installer's theorems apply to it. */
module HookText {
  import opened Lines
  import opened Text
  import opened ManagedBlock
  import opened Forest
  import opened CommandsMap
  import opened HookBlock
  import opened Files
  import opened HookInstaller

  // The longer literals are joined from pieces the verifier can read to the end.
  const BEGIN_HEAD := "# >>> loregarden organization"
  const BEGIN_TAIL := " guardrails (managed) >>>"
  const BEGIN := BEGIN_HEAD + BEGIN_TAIL
  const END_HEAD := "# <<< loregarden organization"
  const END_TAIL := " guardrails (managed) <<<"
  const END := END_HEAD + END_TAIL
  const LORE_EDEN_HEAD := "# >>> lore-eden gate guardrails"
  const LORE_EDEN_TAIL := " (managed) >>>"
  const LORE_EDEN := LORE_EDEN_HEAD + LORE_EDEN_TAIL
  const NAME := "loregarden-gates"

  const NOTE_1_HEAD := "# Generated by loregarden's"
  const NOTE_1_MIDDLE := " scripts/install-workspace-hooks.sh"
  const NOTE_1_TAIL := " \U{2014} do not edit"
  const NOTE_1 := NOTE_1_HEAD + NOTE_1_MIDDLE + NOTE_1_TAIL
  const NOTE_2_HEAD := "# by hand. The gates are listed in"
  const NOTE_2_MIDDLE := " the script below, in loregarden;"
  const NOTE_2_TAIL := " this"
  const NOTE_2 := NOTE_2_HEAD + NOTE_2_MIDDLE + NOTE_2_TAIL
  const NOTE_3_HEAD := "# block changes only if loregarden's"
  const NOTE_3_TAIL := " checkout moves."
  const NOTE_3 := NOTE_3_HEAD + NOTE_3_TAIL
  const TITLE_HEAD := "name: Organization, silent-failure"
  const TITLE_TAIL := " and UX-state guardrails (loregarden)"
  const TITLE := TITLE_HEAD + TITLE_TAIL
  const PRIORITY := "priority: 1"

  function RunLine(dispatcher: string): string {
    "run: bash " + dispatcher + " {staged_files}"
  }

  /** `render_block`'s body for the checkout whose dispatcher has this path. */
  function HookTemplate(dispatcher: string): Template {
    Template(
      Markers(BEGIN, END), LORE_EDEN, NAME,
      [BEGIN, NOTE_1, NOTE_2, NOTE_3, NAME + ":",
       Spaces(2) + TITLE, Spaces(2) + PRIORITY, Spaces(2) + RunLine(dispatcher), END],
      4)
  }

  /** A visible line that starts with one character and does not end in a colon. */
  ghost predicate Plain(s: string, first: char) {
    s != "" && s[0] == first && Trimmed(s) && s[|s| - 1] != ':'
  }

  lemma MarkersAreValid()
    ensures Markers(BEGIN, END).Valid()
    ensures Plain(BEGIN, '#') && Plain(END, '#') && |BEGIN| > 2 && |END| > 2 && BEGIN[2] == '>' && END[2] == '<'
  {
    assert BEGIN[2] != END[2];
  }

  lemma NotesArePlain()
    ensures forall s | s in {NOTE_1, NOTE_2, NOTE_3} :: |s| > 2 && Plain(s, '#') && s[2] != '>' && s[2] != '<'
  {
    assert NOTE_1[2] == 'G' && NOTE_1[|NOTE_1| - 1] == 't';
    assert NOTE_2[2] == 'b' && NOTE_2[|NOTE_2| - 1] == 's';
    assert NOTE_3[2] == 'b' && NOTE_3[|NOTE_3| - 1] == '.';
  }

  lemma SettingsArePlain(dispatcher: string)
    ensures Plain(TITLE, 'n') && Plain(PRIORITY, 'p') && Plain(RunLine(dispatcher), 'r')
  {
    var s := RunLine(dispatcher);
    assert s[|s| - 1] == " {staged_files}"[14] == '}';
  }

  lemma PlainLine(s: string, first: char, indent: nat)
    requires Plain(s, first)
    ensures var line := Spaces(indent) + s;
            Strip(line) == s && !Blank(line) && Indent(line) == indent && !Defines(line, NAME)
    ensures Strip(s) == s && Indent(s) == 0 && !Blank(s) && !Defines(s, NAME)
    ensures EndsVisibly(s) && EndsVisibly(Spaces(indent) + s)
  {
    hide IsSpace, IsBoundary;
    StripTrimmed(s);
    IndentPadded(indent, s);
    var line, c := Spaces(indent) + s, s[|s| - 1];
    assert line[|line| - 1] == c;
    if IsBoundary(c) {
      BoundaryIsSpace(c);
    }
  }

  lemma KeyLine()
    ensures var line := NAME + ":";
            && Strip(line) == line && !Blank(line) && Indent(line) == 0
            && Defines(line, NAME) && line[0] == 'l' && EndsVisibly(line)
  {
    var line := NAME + ":";
    assert line[0] == NAME[0] && NAME[|NAME| - 1] == 's';
    StripTrimmed(line);
    assert line[|line| - 1..] == ":" && line[..|line| - 1] == NAME;
    assert DropColons(NAME) == NAME;
  }

  /** A comment, key and settings block is a valid template, whatever it says. */
  lemma NineLines(m: Markers, eden: string, name: string, n1: string, n2: string, n3: string,
                  key: string, s1: string, s2: string, s3: string)
    requires m.Valid() && !Defines(m.begin, name) && !Defines(m.end, name) && Defines(key, name)
    requires BoundaryFree(m.begin) && BoundaryFree(m.end) && EndsVisibly(m.begin) && EndsVisibly(m.end)
    requires forall s | s in {n1, n2, n3, key} ::
               Indent(s) == 0 && !Blank(s) && Strip(s) == s && s != m.begin && s != m.end && EndsVisibly(s)
    requires forall s | s in {n1, n2, n3} :: !Defines(s, name)
    requires forall s | s in {s1, s2, s3} ::
               && Strip(Spaces(2) + s) == s && Indent(Spaces(2) + s) == 2 && !Blank(Spaces(2) + s)
               && s != m.begin && s != m.end && !Defines(Spaces(2) + s, name) && EndsVisibly(Spaces(2) + s)
    ensures Template(m, eden, name,
                     [m.begin, n1, n2, n3, key, Spaces(2) + s1, Spaces(2) + s2, Spaces(2) + s3, m.end],
                     4).Valid()
  {
    hide Strip, Indent, Defines, BoundaryFree, EndsVisibly;
    StripTrimmed(m.begin);
    StripTrimmed(m.end);
  }

  /** Whatever the path of the checkout, the block is well formed. */
  lemma HookTemplateValid(dispatcher: string)
    ensures HookTemplate(dispatcher).Valid()
  {
    hide Strip, Indent, Blank, Defines, RunLine, Spaces, Template.Valid, BoundaryFree, EndsVisibly;
    hide BEGIN, END, NOTE_1, NOTE_2, NOTE_3, TITLE, PRIORITY, NAME, LORE_EDEN;
    MarkersAreValid();
    NotesArePlain();
    SettingsArePlain(dispatcher);
    KeyLine();
    BeginIsLine();
    EndIsLine();
    PlainLine(BEGIN, '#', 0);
    PlainLine(END, '#', 0);
    forall s | s in {NOTE_1, NOTE_2, NOTE_3}
      ensures Strip(s) == s && Indent(s) == 0 && !Blank(s) && !Defines(s, NAME) && EndsVisibly(s)
    {
      PlainLine(s, '#', 0);
    }
    PlainLine(TITLE, 'n', 2);
    PlainLine(PRIORITY, 'p', 2);
    PlainLine(RunLine(dispatcher), 'r', 2);
    NineLines(Markers(BEGIN, END), LORE_EDEN, NAME, NOTE_1, NOTE_2, NOTE_3, NAME + ":",
              TITLE, PRIORITY, RunLine(dispatcher));
  }

  lemma BeginHeadIsLine()
    ensures BoundaryFree(BEGIN_HEAD)
  {
  }

  lemma BeginTailIsLine()
    ensures BoundaryFree(BEGIN_TAIL)
  {
  }

  lemma EndHeadIsLine()
    ensures BoundaryFree(END_HEAD)
  {
  }

  lemma EndTailIsLine()
    ensures BoundaryFree(END_TAIL)
  {
  }

  lemma Note1HeadIsLine()
    ensures BoundaryFree(NOTE_1_HEAD)
  {
  }

  lemma Note1MiddleIsLine()
    ensures BoundaryFree(NOTE_1_MIDDLE)
  {
  }

  lemma Note1TailIsLine()
    ensures BoundaryFree(NOTE_1_TAIL)
  {
  }

  lemma Note2HeadIsLine()
    ensures BoundaryFree(NOTE_2_HEAD)
  {
  }

  lemma Note2MiddleIsLine()
    ensures BoundaryFree(NOTE_2_MIDDLE)
  {
  }

  lemma Note2TailIsLine()
    ensures BoundaryFree(NOTE_2_TAIL)
  {
  }

  lemma Note3HeadIsLine()
    ensures BoundaryFree(NOTE_3_HEAD)
  {
  }

  lemma Note3TailIsLine()
    ensures BoundaryFree(NOTE_3_TAIL)
  {
  }

  lemma TitleHeadIsLine()
    ensures BoundaryFree(TITLE_HEAD)
  {
  }

  lemma TitleTailIsLine()
    ensures BoundaryFree(TITLE_TAIL)
  {
  }

  lemma BeginIsLine()
    ensures BoundaryFree(BEGIN)
  {
    hide BoundaryFree, BEGIN_HEAD, BEGIN_TAIL;
    BeginHeadIsLine();
    BeginTailIsLine();
    JoinBoundaryFree(BEGIN_HEAD, BEGIN_TAIL);
  }

  lemma EndIsLine()
    ensures BoundaryFree(END)
  {
    hide BoundaryFree, END_HEAD, END_TAIL;
    EndHeadIsLine();
    EndTailIsLine();
    JoinBoundaryFree(END_HEAD, END_TAIL);
  }

  lemma Note1IsLine()
    ensures BoundaryFree(NOTE_1)
  {
    hide BoundaryFree, NOTE_1_HEAD, NOTE_1_MIDDLE, NOTE_1_TAIL;
    Note1HeadIsLine();
    Note1MiddleIsLine();
    Note1TailIsLine();
    JoinBoundaryFree(NOTE_1_HEAD, NOTE_1_MIDDLE);
    JoinBoundaryFree(NOTE_1_HEAD + NOTE_1_MIDDLE, NOTE_1_TAIL);
  }

  lemma Note2IsLine()
    ensures BoundaryFree(NOTE_2)
  {
    hide BoundaryFree, NOTE_2_HEAD, NOTE_2_MIDDLE, NOTE_2_TAIL;
    Note2HeadIsLine();
    Note2MiddleIsLine();
    Note2TailIsLine();
    JoinBoundaryFree(NOTE_2_HEAD, NOTE_2_MIDDLE);
    JoinBoundaryFree(NOTE_2_HEAD + NOTE_2_MIDDLE, NOTE_2_TAIL);
  }

  lemma Note3IsLine()
    ensures BoundaryFree(NOTE_3)
  {
    hide BoundaryFree, NOTE_3_HEAD, NOTE_3_TAIL;
    Note3HeadIsLine();
    Note3TailIsLine();
    JoinBoundaryFree(NOTE_3_HEAD, NOTE_3_TAIL);
  }

  lemma TitleIsLine()
    ensures BoundaryFree(TITLE)
  {
    hide BoundaryFree, TITLE_HEAD, TITLE_TAIL;
    TitleHeadIsLine();
    TitleTailIsLine();
    JoinBoundaryFree(TITLE_HEAD, TITLE_TAIL);
  }

  lemma WordingIsBoundaryFree()
    ensures forall s | s in {BEGIN, END, NOTE_1, NOTE_2, NOTE_3, TITLE} :: BoundaryFree(s)
  {
    hide BoundaryFree, BEGIN, END, NOTE_1, NOTE_2, NOTE_3, TITLE;
    BeginIsLine();
    EndIsLine();
    Note1IsLine();
    Note2IsLine();
    Note3IsLine();
    TitleIsLine();
  }

  lemma ShortWordingIsBoundaryFree()
    ensures BoundaryFree(PRIORITY) && BoundaryFree(NAME + ":") && BoundaryFree(Spaces(2))
    ensures BoundaryFree("run: bash ") && BoundaryFree(" {staged_files}")
  {
  }

  lemma RunLineIff(dispatcher: string)
    ensures BoundaryFree(RunLine(dispatcher)) <==> BoundaryFree(dispatcher)
  {
    ShortWordingIsBoundaryFree();
    hide BoundaryFree;
    JoinBoundaryFree("run: bash " + dispatcher, " {staged_files}");
    JoinBoundaryFree("run: bash ", dispatcher);
  }

  /** Every line of the block but the one with the path is free of line boundaries. */
  lemma OtherLines(dispatcher: string)
    ensures var body := HookTemplate(dispatcher).body;
            && |body| == 9 && body[7] == Spaces(2) + RunLine(dispatcher)
            && forall i | 0 <= i < 9 && i != 7 :: BoundaryFree(body[i])
  {
    hide BoundaryFree, RunLine, Spaces, BEGIN, END, NOTE_1, NOTE_2, NOTE_3, TITLE, PRIORITY, NAME;
    WordingIsBoundaryFree();
    ShortWordingIsBoundaryFree();
    JoinBoundaryFree(Spaces(2), TITLE);
    JoinBoundaryFree(Spaces(2), PRIORITY);
  }

  /** The block is made of lines exactly when the path has no line boundary in it. */
  lemma HookTemplatePlainIff(dispatcher: string)
    ensures AllBoundaryFree(HookTemplate(dispatcher).body) <==> BoundaryFree(dispatcher)
  {
    hide BoundaryFree, RunLine, HookTemplate, Spaces;
    OtherLines(dispatcher);
    RunLineIff(dispatcher);
    ShortWordingIsBoundaryFree();
    JoinBoundaryFree(Spaces(2), RunLine(dispatcher));
  }

  /** It does no harm exactly when the line with the path breaks into no marker. */
  lemma HookTemplateHarmlessIff(dispatcher: string)
    ensures HookTemplate(dispatcher).Harmless() <==> Markers(BEGIN, END).Free(SplitLines(RunLine(dispatcher)))
  {
    hide BoundaryFree, RunLine, Spaces, SplitLines, Strip, BEGIN, END, Template.Valid;
    var t, run := HookTemplate(dispatcher), RunLine(dispatcher);
    hide HookTemplate;
    HookTemplateValid(dispatcher);
    OtherLines(dispatcher);
    forall i | 0 < i < 8 && i != 7 ensures t.markers.Free(SplitLines(t.body[i])) {
      OtherLineIsFree(t, i);
    }
    SettingsArePlain(dispatcher);
    SplitPadded(2, run);
    IndentPadded(2, SplitLines(run)[0]);
    var parts, padded := SplitLines(run), SplitLines(t.body[7]);
    assert forall j | 0 <= j < |parts| :: Strip(padded[j]) == Strip(parts[j]);
    assert t.markers == Markers(BEGIN, END) by { TemplateMarkers(dispatcher); }
  }

  lemma TemplateMarkers(dispatcher: string)
    ensures HookTemplate(dispatcher).markers == Markers(BEGIN, END)
  {
    hide BEGIN, END;
  }

  lemma OtherLineIsFree(t: Template, i: nat)
    requires t.Valid() && 0 < i < |t.body| - 1 && BoundaryFree(t.body[i])
    ensures t.markers.Free(SplitLines(t.body[i]))
  {
    hide Strip, Indent, Blank, SplitLines, BoundaryFree, Defines, Markers.Valid;
    NoCut(t.body[i]);
  }

  /** After an install that returned 0, where lore-eden's gates are not in the file: the same
      run returns 0 again exactly when the line with the path breaks into no marker, and
      `--check` returns 0 exactly when the path has no line boundary. */
  lemma PathDecides(node: Node, dispatcher: string)
    requires Succeeds(Decide(node, HookTemplate(dispatcher), false))
    ensures var t := HookTemplate(dispatcher);
            var node' := Step(node, t, false);
            Own(node, t.markers).Some? &&
            (!HasLine(Own(node, t.markers).value, t.eden) ==>
               && (Succeeds(Decide(node', t, false)) <==> Markers(BEGIN, END).Free(SplitLines(RunLine(dispatcher))))
               && (Decide(node', t, true) == Exit(0) <==> BoundaryFree(dispatcher)))
  {
    hide HookTemplate, Decide, Own, HasLine, Template.Valid;
    hide Template.Harmless, AllBoundaryFree, BoundaryFree, SplitLines;
    hide Step, Succeeds, Markers.Free, RunLine, BEGIN, END;
    var t := HookTemplate(dispatcher);
    HookTemplateValid(dispatcher);
    Idempotent(node, t);
    CheckAfterInstallIff(node, t);
    HookTemplatePlainIff(dispatcher);
    HookTemplateHarmlessIff(dispatcher);
  }

  /** When an install from any checkout returns 0, in the words of the file itself. */
  lemma InstallSucceedsIff(node: Node, dispatcher: string)
    ensures var t := HookTemplate(dispatcher);
            Succeeds(Decide(node, t, false)) <==>
              && node.Regular? && node.file.content.Utf8?
              && var s := SplitBlock(SplitLines(node.file.content.text), Markers(BEGIN, END));
                 && s.Split?
                 && ((exists i | 0 <= i < |s.rest| :: Padded(s.rest[i], LORE_EDEN))
                     || (Locate(s.rest).Some?
                         && !exists i | 0 <= i < |s.rest| :: NameAndColons(Strip(s.rest[i]), "loregarden-gates")))
  {
    EdenAndKey();
    TemplateMarkers(dispatcher);
    TemplateNames(dispatcher);
    hide *;
    SucceedsIff(node, HookTemplate(dispatcher));
  }

  lemma EdenAndKey()
    ensures Trimmed(LORE_EDEN)
    ensures NAME == "loregarden-gates" && NAME != "" && NAME[0] != '#' && NAME[|NAME| - 1] != ':'
  {
    assert LORE_EDEN[|LORE_EDEN| - 1] == LORE_EDEN_TAIL[|LORE_EDEN_TAIL| - 1] == '>';
    assert LORE_EDEN[0] == LORE_EDEN_HEAD[0] == '#';
  }

  lemma TemplateNames(dispatcher: string)
    ensures HookTemplate(dispatcher).eden == LORE_EDEN && HookTemplate(dispatcher).key == NAME
    ensures HookTemplate(dispatcher).keyAt == 4
  {
    hide LORE_EDEN, NAME;
  }

  /** What the installed block makes the hooks run: below the managed key, two spaces deeper,
      stands the one line that runs this checkout's dispatcher on the staged files. */
  lemma RunsDispatcher(rest: seq<string>, dispatcher: string)
    requires Locate(rest).Some?
    ensures var p, out := Locate(rest).value, Installed(rest, HookTemplate(dispatcher));
            var k := InsertAt(rest, p.commands);
            && |out| == |rest| + 9
            && out[k + 4] == Spaces(p.entry) + "loregarden-gates:"
            && out[k + 5]
               == Spaces(p.entry) + "  name: Organization, silent-failure" + " and UX-state guardrails (loregarden)"
            && out[k + 6] == Spaces(p.entry) + "  priority: 1"
            && out[k + 7] == Spaces(p.entry) + "  run: bash " + dispatcher + " {staged_files}"
            && IsParent(out, k + 4, k + 7)
    ensures forall j | 0 <= j < Locate(rest).value.entry :: Spaces(Locate(rest).value.entry)[j] == ' '
  {
    hide *;
    var t, p := HookTemplate(dispatcher), Locate(rest).value;
    var k, b := InsertAt(rest, p.commands), t.Render(p.entry);
    HookTemplateValid(dispatcher);
    RunAndKey(dispatcher, p.entry);
    SpacesAre(p.entry);
    RenderedLine(t, p.entry, 4);
    RenderedLine(t, p.entry, 5);
    RenderedLine(t, p.entry, 6);
    RenderedLine(t, p.entry, 7);
    InstalledInserts(rest, t);
    InsertedLine(rest, k, b, 4);
    InsertedLine(rest, k, b, 5);
    InsertedLine(rest, k, b, 6);
    InsertedLine(rest, k, b, 7);
    NameAndPriority(dispatcher, p.entry);
    LineOfInsert(rest, k, b, k + 4);
    SettingIsChild(rest, t, 7);
  }

  lemma SettingIsChild(rest: seq<string>, t: Template, j: nat)
    requires t.Valid() && Locate(rest).Some? && t.keyAt < j < |t.body| - 1
    ensures var k := InsertAt(rest, Locate(rest).value.commands);
            IsParent(Installed(rest, t), k + t.keyAt, k + j)
  {
    hide Locate, InsertAt, Installed, OutlineOf, Template.Valid;
    SettingsUnderKey(rest, t, j);
  }

  lemma SpacesAre(n: nat)
    ensures forall j | 0 <= j < n :: Spaces(n)[j] == ' '
  {
  }

  lemma NameAndPriority(dispatcher: string, entry: nat)
    ensures var t := HookTemplate(dispatcher);
            && |t.body| == 9
            && Spaces(entry) + t.body[5]
               == Spaces(entry) + "  name: Organization, silent-failure" + " and UX-state guardrails (loregarden)"
            && Spaces(entry) + t.body[6] == Spaces(entry) + "  priority: 1"
  {
    var name, tail := "  name: Organization, silent-failure", " and UX-state guardrails (loregarden)";
    NameJoins();
    hide RunLine, BEGIN, END, LORE_EDEN, NOTE_1, NOTE_2, NOTE_3, TITLE, NAME;
    assert Spaces(2) == "  ";
    assert Spaces(2) + PRIORITY == "  priority: 1";
    assert Spaces(entry) + (name + tail) == Spaces(entry) + name + tail;
  }

  lemma NameJoins()
    ensures "  " + TITLE == "  name: Organization, silent-failure" + " and UX-state guardrails (loregarden)"
  {
    assert "  " + TITLE_HEAD == "  name: Organization, silent-failure";
    assert "  " + (TITLE_HEAD + TITLE_TAIL) == "  " + TITLE_HEAD + TITLE_TAIL;
  }

  lemma RunAndKey(dispatcher: string, entry: nat)
    ensures var t := HookTemplate(dispatcher);
            && |t.body| == 9 && t.keyAt == 4
            && Spaces(entry) + t.body[4] == Spaces(entry) + "loregarden-gates:"
            && Spaces(entry) + t.body[7] == Spaces(entry) + "  run: bash " + dispatcher + " {staged_files}"
  {
    hide BEGIN, END, LORE_EDEN, NOTE_1, NOTE_2, NOTE_3, TITLE, PRIORITY;
    assert Spaces(2) == "  ";
    assert Spaces(2) + RunLine(dispatcher) == "  run: bash " + dispatcher + " {staged_files}";
    hide RunLine;
    var run := "  run: bash " + dispatcher + " {staged_files}";
    assert Spaces(entry) + run == Spaces(entry) + "  run: bash " + dispatcher + " {staged_files}";
  }

  const IN_CHECKOUT := "/.lefthook/scripts/workspace-gates.sh"

  const TORN := "/a\U{000B}b" + IN_CHECKOUT
  const MARKED := "/\n" + BEGIN + "\n" + IN_CHECKOUT

  lemma TornBreaks()
    ensures !BoundaryFree(TORN)
  {
    hide IN_CHECKOUT;
    assert TORN[2] == '\U{000B}';
  }

  /** A checkout whose path has a vertical tab in it: whatever file it is installed into,
      `--check` does not accept the block. */
  lemma TornPath(node: Node)
    requires var t := HookTemplate(TORN);
             && Succeeds(Decide(node, t, false))
             && Own(node, t.markers).Some? && !HasLine(Own(node, t.markers).value, t.eden)
    ensures var t := HookTemplate(TORN);
            Decide(Step(node, t, false), t, true) != Exit(0)
  {
    hide *;
    TornBreaks();
    PathDecides(node, TORN);
  }

  /** A checkout with the begin marker on a line of its path: after one install every
      further one refuses the file. */
  lemma MarkerPath(node: Node)
    requires var t := HookTemplate(MARKED);
             && Succeeds(Decide(node, t, false))
             && Own(node, t.markers).Some? && !HasLine(Own(node, t.markers).value, t.eden)
    ensures var t := HookTemplate(MARKED);
            !Succeeds(Decide(Step(node, t, false), t, false))
  {
    hide *;
    PathDecides(node, MARKED);
    MarkerLine();
  }

  lemma MarkerLine()
    ensures !Markers(BEGIN, END).Free(SplitLines(RunLine(MARKED)))
  {
    MarkersAreValid();
    BeginIsLine();
    hide BEGIN, END, IN_CHECKOUT, SplitLines, Strip;
    var run, rest := RunLine(MARKED), IN_CHECKOUT + " {staged_files}";
    assert run == "run: bash /" + "\n" + (BEGIN + "\n" + rest);
    SplitFirst("run: bash /", "\n", BEGIN + "\n" + rest);
    SplitFirst(BEGIN, "\n", rest);
    StripTrimmed(BEGIN);
    assert SplitLines(run)[1] == BEGIN;
  }

  const UNEVEN: seq<string> := ["pre-commit:", "  commands:", "      a:", "    b:"]

  lemma UnevenIndents()
    ensures Strip("  commands:") == "commands:" && Indent("  commands:") == 2
    ensures Strip("      a:") == "a:" && Indent("      a:") == 6
    ensures Strip("    b:") == "b:" && Indent("    b:") == 4
  {
    hide Strip, Indent;
    StripUnique("  ", "commands:", "");
    StripUnique("      ", "a:", "");
    StripUnique("    ", "b:", "");
    assert "  commands:" == "  " + "commands:" + "";
    assert "      a:" == "      " + "a:" + "" && "    b:" == "    " + "b:" + "";
  }

  lemma UnevenPlace()
    ensures Locate(UNEVEN) == Some(Place(1, 6))
  {
    hide Strip, Indent;
    UnevenIndents();
    ScanIs(UNEVEN, 0, OpensPreCommit(), 0);
    ScanIs(UNEVEN, 1, StopsSearch(), 1);
    ScanIs(UNEVEN, 2, HasText(), 2);
  }

  lemma UnevenEnd()
    ensures InsertAt(UNEVEN, 1) == 4 && !EvenlyIndented(UNEVEN, Place(1, 6))
  {
    hide Strip, Indent;
    UnevenIndents();
    ScanIs(UNEVEN, 2, ClosesMap(2), 4);
    TrimBlankIs(UNEVEN, 2, 4, 4);
    assert !Blank(UNEVEN[3]) && Indent(UNEVEN[3]) < 6;
  }

  /** A map whose second entry is shallower than its first: the block goes in at the first
      one's indent, so its key is not an entry of the map. */
  lemma UnevenMap(dispatcher: string)
    ensures var t := HookTemplate(dispatcher);
            && Locate(UNEVEN) == Some(Place(1, 6))
            && var o, at := OutlineOf(Installed(UNEVEN, t)), InsertAt(UNEVEN, 1) + t.keyAt;
               at < |o| && o[at].Some? && Parent(o, at) != 1
  {
    hide HookTemplate, Installed, EvenlyIndented, Template.Valid, Locate, InsertAt, UNEVEN, Strip, Indent;
    UnevenPlace();
    UnevenEnd();
    HookTemplateValid(dispatcher);
    KeyIsEntryIff(UNEVEN, HookTemplate(dispatcher));
  }

  lemma {:induction false} DropColonsKeepsStart(s: string)
    ensures DropColons(s) != "" ==> s != "" && DropColons(s)[0] == s[0]
  {
    if s == "" {
    } else if s[|s| - 1] == ':' {
      DropColonsKeepsStart(s[..|s| - 1]);
    }
  }

  /** A line that starts with neither `#` nor the key's first letter is none of ours. */
  lemma ForeignLine(dispatcher: string, line: string)
    requires Strip(line) != "" && Strip(line)[0] != '#' && Strip(line)[0] != 'l'
    ensures var t := HookTemplate(dispatcher);
            !t.markers.On(line) && Strip(line) != t.eden && !Defines(line, t.key)
  {
    TemplateMarkers(dispatcher);
    MarkersAreValid();
    assert LORE_EDEN[0] == '#' && NAME[0] == 'l';
    hide BEGIN, END, LORE_EDEN, NAME, Strip;
    DropColonsKeepsStart(Strip(line));
  }

  lemma UnevenStrips()
    ensures forall i | 0 <= i < 4 :: var s := Strip(UNEVEN[i]); s != "" && s[0] != '#' && s[0] != 'l'
  {
    UnevenIndents();
    StripTrimmed("pre-commit:");
    hide Strip;
  }

  lemma UnevenIsPlain()
    ensures AllBoundaryFree(UNEVEN)
  {
  }

  /** Every checkout's block can be installed into that file, so the failing paths above do
      meet a file they are installed into. */
  lemma UnevenIsAccepted(dispatcher: string)
    ensures var (t, node) := (HookTemplate(dispatcher), Regular(File(Utf8(WriteText(UNEVEN, "\n")), 0x1A4)));
            && Own(node, t.markers) == Some(UNEVEN) && !HasLine(UNEVEN, t.eden)
            && Decide(node, t, false).Write?
  {
    UnevenStrips();
    UnevenIsPlain();
    UnevenPlace();
    assert |UNEVEN| == 4;
    var t := HookTemplate(dispatcher);
    HookTemplateValid(dispatcher);
    hide *;
    forall i | 0 <= i < 4
      ensures !t.markers.On(UNEVEN[i]) && Strip(UNEVEN[i]) != t.eden && !Defines(UNEVEN[i], t.key)
    {
      ForeignLine(dispatcher, UNEVEN[i]);
    }
    FourForeign(UNEVEN, t);
    FirstInstall(UNEVEN, "\n", 0x1A4, t);
  }

  lemma FourForeign(lines: seq<string>, t: Template)
    requires |lines| == 4 && Locate(lines).Some? && AllBoundaryFree(lines)
    requires forall i | 0 <= i < 4 :: !t.markers.On(lines[i]) && Strip(lines[i]) != t.eden && !Defines(lines[i], t.key)
    ensures Accepts(lines, t) && !HasLine(lines, t.eden) && lines != [] && IsNewline("\n")
  {
    hide Strip, Defines, Locate, BoundaryFree, Markers.On;
  }
}
