/** The section's markers and the lines of it that name the checkout and the slug. */
module DocText {
  import opened Lines
  import opened Text
  import opened ManagedBlock
  import opened Files
  import opened AgentsDoc
  import opened AgentsInstaller

  // The longer literals are joined from pieces the verifier can read to the end.
  const BEGIN_HEAD := "<!-- >>> loregarden control plane"
  const BEGIN_TAIL := " (managed) >>> -->"
  const BEGIN := BEGIN_HEAD + BEGIN_TAIL
  const END_HEAD := "<!-- <<< loregarden control plane"
  const END_TAIL := " (managed) <<< -->"
  const END := END_HEAD + END_TAIL
  const SLUG_FIELD := "<!-- loregarden-workspace-slug:"
  const PLACEHOLDER := "<workspace-slug>"

  const LIST: seq<Piece> :=
    [Cli, Words(" mcp list        "), Words("               # every"), Words(" tool + description")]
  const DESCRIBE: seq<Piece> := [Cli, Words(" mcp describe"), Words(" loregarden_get_ticket")]
  const CALL: seq<Piece> :=
    [Cli, Words(" mcp call"), Words(" loregarden_get_ticket"), Words(" external_id=<slug>"),
     Words(" workspace_slug="), Slug]
  const REFERENCE: seq<Piece> := [Words("Full agent-facing reference: `"), Asset, Words("`")]

  /** `render_block`, for any fixed wording around the lines with something filled in. */
  function DocTemplate(intro: seq<seq<Piece>>, guide: seq<seq<Piece>>): Template {
    Template(Markers(BEGIN, END), SLUG_FIELD, PLACEHOLDER, intro + [LIST, DESCRIBE, CALL] + guide + [REFERENCE])
  }

  /** Fixed wording: empty lines, and lines with a visible character no marker has that do
      not read as a slug line. */
  ghost predicate IsWording(lines: seq<seq<Piece>>) {
    forall i | 0 <= i < |lines| ::
      || lines[i] == []
      || (|lines[i]| == 1 && lines[i][0].Words? && BoundaryFree(lines[i][0].text)
          && HasForeign(lines[i][0].text) && SlugOf(lines[i][0].text, SLUG_FIELD).None?)
  }

  ghost predicate HasForeign(s: string) {
    exists j | 0 <= j < |s| :: !IsSpace(s[j]) && s[j] !in BEGIN && s[j] !in END
  }

  lemma BeginHead()
    ensures BoundaryFree(BEGIN_HEAD) && |BEGIN_HEAD| > 5 && BEGIN_HEAD[0] == '<' && BEGIN_HEAD[5] == '>'
  {
  }

  lemma BeginTail()
    ensures BoundaryFree(BEGIN_TAIL) && BEGIN_TAIL != "" && BEGIN_TAIL[|BEGIN_TAIL| - 1] == '>'
  {
  }

  lemma EndHead()
    ensures BoundaryFree(END_HEAD) && |END_HEAD| > 5 && END_HEAD[0] == '<' && END_HEAD[5] == '<'
  {
  }

  lemma EndTail()
    ensures BoundaryFree(END_TAIL) && END_TAIL != "" && END_TAIL[|END_TAIL| - 1] == '>'
  {
  }

  lemma BeginFacts()
    ensures |BEGIN| > 5 && BEGIN[5] == '>' && Trimmed(BEGIN) && BoundaryFree(BEGIN)
  {
    hide BoundaryFree, BEGIN_HEAD, BEGIN_TAIL;
    BeginHead();
    BeginTail();
    JoinBoundaryFree(BEGIN_HEAD, BEGIN_TAIL);
  }

  lemma EndFacts()
    ensures |END| > 5 && END[5] == '<' && Trimmed(END) && BoundaryFree(END)
  {
    hide BoundaryFree, END_HEAD, END_TAIL;
    EndHead();
    EndTail();
    JoinBoundaryFree(END_HEAD, END_TAIL);
  }

  lemma MarkersAreValid()
    ensures Markers(BEGIN, END).Valid() && BoundaryFree(BEGIN) && BoundaryFree(END)
    ensures !StartsWith(BEGIN, SLUG_FIELD) && !StartsWith(END, SLUG_FIELD)
  {
    hide BEGIN, END, BoundaryFree;
    BeginFacts();
    EndFacts();
    assert SLUG_FIELD[5] == 'l';
  }

  /** The marks in the four lines' wording occur in neither marker. */
  lemma ForeignMarks()
    ensures forall c | c in {'#', '_', '`'} :: c !in BEGIN && c !in END
  {
    hide BEGIN_HEAD, BEGIN_TAIL, END_HEAD, END_TAIL;
    forall c | c in {'#', '_', '`'} ensures c !in BEGIN && c !in END {
      ForeignToHeads(c);
      ForeignToTails(c);
      NotIn(c, BEGIN_HEAD, BEGIN_TAIL);
      NotIn(c, END_HEAD, END_TAIL);
    }
  }

  lemma ForeignToHeads(c: char)
    requires c in {'#', '_', '`'}
    ensures c !in BEGIN_HEAD && c !in END_HEAD
  {
  }

  lemma ForeignToTails(c: char)
    requires c in {'#', '_', '`'}
    ensures c !in BEGIN_TAIL && c !in END_TAIL
  {
  }

  lemma NotIn(c: char, a: string, b: string)
    requires c !in a && c !in b
    ensures c !in a + b
  {
  }

  lemma DocTemplateValid(intro: seq<seq<Piece>>, guide: seq<seq<Piece>>)
    requires IsWording(intro) && IsWording(guide)
    ensures DocTemplate(intro, guide).Valid() && DocTemplate(intro, guide).Mentions()
  {
    hide BEGIN, END, SLUG_FIELD, PLACEHOLDER, LIST, DESCRIBE;
    hide CALL, REFERENCE, BoundaryFree, Template.Safe, Template.Mute;
    var t := DocTemplate(intro, guide);
    MarkersAreValid();
    PathsAreMentioned();
    FilledLines(t);
    FieldFacts();
    forall i | 0 <= i < |t.prose|
      ensures t.Safe(t.prose[i]) && t.Mute(t.prose[i])
      ensures Clean(t.prose[i])
    {
      var n := |intro|;
      if i < n {
        WordingIsSafe(t, intro, i);
      } else if n + 3 <= i < n + 3 + |guide| {
        WordingIsSafe(t, guide, i - n - 3);
      }
    }
    var k := |intro|;
    assert t.prose[k] == LIST && t.prose[|t.prose| - 1] == REFERENCE;
  }

  lemma PathsAreMentioned()
    ensures LIST != [] && LIST[0] == Cli && |REFERENCE| > 1 && REFERENCE[1] == Asset
  {
  }

  lemma WordingIsSafe(t: Template, lines: seq<seq<Piece>>, i: nat)
    requires IsWording(lines) && i < |lines| && t.markers == Markers(BEGIN, END) && t.field == SLUG_FIELD
    ensures t.Safe(lines[i]) && t.Mute(lines[i])
    ensures Clean(lines[i])
  {
    hide BEGIN, END, BoundaryFree, SLUG_FIELD, SlugOf;
  }

  lemma FieldFacts()
    ensures SLUG_FIELD != "" && !IsSpace(SLUG_FIELD[0]) && BoundaryFree(SLUG_FIELD)
    ensures PLACEHOLDER != "" && Trimmed(PLACEHOLDER) && BoundaryFree(PLACEHOLDER)
  {
  }

  lemma MarkedIsSafe(t: Template, line: seq<Piece>, i: nat, j: nat)
    requires t.markers == Markers(BEGIN, END)
    requires i < |line| && line[i].Words? && j < |line[i].text| && line[i].text[j] in {'#', '_', '`'}
    ensures t.Safe(line)
  {
    hide BEGIN, END;
    ForeignMarks();
    assert !IsSpace(line[i].text[j]) && line[i].text[j] !in BEGIN && line[i].text[j] !in END;
  }

  ghost predicate Clean(line: seq<Piece>) {
    forall j | 0 <= j < |line| :: line[j].Words? ==> BoundaryFree(line[j].text)
  }

  lemma ListLine(t: Template)
    requires t.markers == Markers(BEGIN, END)
    ensures t.Safe(LIST) && Clean(LIST) && t.Mute(LIST)
  {
    hide BEGIN, END, Template.Safe;
    assert LIST[2].text[15] == '#';
    MarkedIsSafe(t, LIST, 2, 15);
  }

  lemma DescribeLine(t: Template)
    requires t.markers == Markers(BEGIN, END)
    ensures t.Safe(DESCRIBE) && Clean(DESCRIBE) && t.Mute(DESCRIBE)
  {
    hide BEGIN, END, Template.Safe;
    assert DESCRIBE[2].text[11] == '_';
    MarkedIsSafe(t, DESCRIBE, 2, 11);
  }

  lemma CallWords()
    ensures BoundaryFree(" mcp call") && BoundaryFree(" loregarden_get_ticket")
  {
  }

  lemma CallArguments()
    ensures BoundaryFree(" external_id=<slug>") && BoundaryFree(" workspace_slug=")
  {
  }

  lemma CallIsClean()
    ensures Clean(CALL)
  {
    hide BoundaryFree;
    CallWords();
    CallArguments();
  }

  lemma CallLine(t: Template)
    requires t.markers == Markers(BEGIN, END)
    ensures t.Safe(CALL) && Clean(CALL) && t.Mute(CALL)
  {
    hide BEGIN, END, Template.Safe, Clean;
    CallIsClean();
    assert CALL[2].text[11] == '_';
    MarkedIsSafe(t, CALL, 2, 11);
  }

  lemma ReferenceLine(t: Template)
    requires t.markers == Markers(BEGIN, END)
    ensures t.Safe(REFERENCE) && Clean(REFERENCE) && t.Mute(REFERENCE)
  {
    hide BEGIN, END, Template.Safe;
    assert REFERENCE[2].text[0] == '`';
    MarkedIsSafe(t, REFERENCE, 2, 0);
  }

  lemma FilledLines(t: Template)
    requires t.markers == Markers(BEGIN, END)
    ensures forall line: seq<Piece> | line in {LIST, DESCRIBE, CALL, REFERENCE} ::
              t.Safe(line) && Clean(line) && t.Mute(line)
  {
    hide BEGIN, END, Template.Safe, Template.Mute, Clean, LIST, DESCRIBE, CALL, REFERENCE;
    ListLine(t);
    DescribeLine(t);
    CallLine(t);
    ReferenceLine(t);
  }

  // ---------------------------------------------------------------- what the arguments decide

  /** After an install that was not refused `--check` returns 0 exactly when neither path nor
      the slug argument has a line boundary in it. */
  lemma ArgumentsDecide(node: Node, intro: seq<seq<Piece>>, guide: seq<seq<Piece>>, req: Request, umask: bv12)
    requires IsWording(intro) && IsWording(guide) && !req.check && Parts(node, DocTemplate(intro, guide)).Some?
    ensures var t := DocTemplate(intro, guide);
            Decide(Step(node, t, req, umask), t, req.(check := true)) == Exit(0)
            <==> BoundaryFree(req.at.cli) && BoundaryFree(req.at.asset) && BoundaryFree(req.slug)
  {
    hide IsWording, DocTemplate, Decide, Step, Parts, Template.Valid, Template.Mentions, Template.Render, BoundaryFree;
    var t := DocTemplate(intro, guide);
    DocTemplateValid(intro, guide);
    CheckAfterInstallIff(node, t, req, umask);
    FitsIff(node, t, req);
  }

  /** A slug with a vertical tab in it: whatever file it is installed into, `--check` reports
      the section outdated. */
  lemma TornSlug(node: Node, intro: seq<seq<Piece>>, guide: seq<seq<Piece>>, at: Checkout, umask: bv12)
    requires IsWording(intro) && IsWording(guide) && Parts(node, DocTemplate(intro, guide)).Some?
    ensures var (t, req) := (DocTemplate(intro, guide), Request(at, "a\U{000B}b", false));
            Decide(Step(node, t, req, umask), t, req.(check := true)) == Exit(1)
  {
    var req := Request(at, "a\U{000B}b", false);
    assert req.slug[1] == '\U{000B}';
    assert !BoundaryFree(req.slug);
    hide IsWording, DocTemplate, Decide, Step, Parts, BoundaryFree;
    var t := DocTemplate(intro, guide);
    ArgumentsDecide(node, intro, guide, req, umask);
    CheckIsExact(Step(node, t, req, umask), t, req, umask);
    CheckCodes(Step(node, t, req, umask), t, req.(check := true));
  }

  lemma CheckCodes(node: Node, t: Template, req: Request)
    requires req.check
    ensures Decide(node, t, req) in {Exit(0), Exit(1)}
  {
    hide Start, SplitBlock, SlugIn, Compose, Template.Render;
  }

  /** A slug with the begin marker on a line of its own: after one install every run refuses
      the file. */
  lemma MarkerSlug(intro: seq<seq<Piece>>, guide: seq<seq<Piece>>, at: Checkout, nl: string)
    requires IsNewline(nl)
    ensures !Harmless(DocTemplate(intro, guide), at, "\n" + BEGIN + "\n", nl)
  {
    var t, slug := DocTemplate(intro, guide), "\n" + BEGIN + "\n";
    BeginFacts();
    FieldFacts();
    PunctuationIsBoundaryFree();
    hide BEGIN, END, SLUG_FIELD, SplitLines, Strip, BoundaryFree, LIST, DESCRIBE, CALL, REFERENCE;
    var inner, rest := Inner(t, at, slug), "" + " -->" + nl;
    var line := t.SlugLine(slug) + nl;
    assert inner[0] == t.SlugLine(slug);
    JoinBoundaryFree(SLUG_FIELD, " ");
    assert line == SLUG_FIELD + " " + "\n" + (BEGIN + "\n" + rest);
    SplitFirst(SLUG_FIELD + " ", "\n", BEGIN + "\n" + rest);
    SplitFirst(BEGIN, "\n", rest);
    StripTrimmed(BEGIN);
    assert SplitLines(line)[1] == BEGIN;
    FreeReread(inner, nl, t.markers);
  }

  // ---------------------------------------------------------------- what a reader sees

  lemma FillStep(pieces: seq<Piece>, at: Checkout, slug: string)
    ensures Fill([], at, slug) == ""
    ensures pieces != [] ==> Fill(pieces, at, slug) == FillOne(pieces[0], at, slug) + Fill(pieces[1..], at, slug)
  {
  }

  lemma FillTwo(a: Piece, b: Piece, at: Checkout, slug: string)
    ensures Fill([a, b], at, slug) == FillOne(a, at, slug) + FillOne(b, at, slug)
  {
    hide FillOne;
    FillAppend([], a, at, slug);
    FillAppend([a], b, at, slug);
    assert [] + [a] == [a] && [a] + [b] == [a, b];
    assert "" + FillOne(a, at, slug) == FillOne(a, at, slug);
  }

  lemma FillThree(a: Piece, b: Piece, c: Piece, at: Checkout, slug: string)
    ensures Fill([a, b, c], at, slug) == FillOne(a, at, slug) + FillOne(b, at, slug) + FillOne(c, at, slug)
  {
    hide FillOne, Fill;
    FillTwo(a, b, at, slug);
    FillAppend([a, b], c, at, slug);
    assert [a, b] + [c] == [a, b, c];
  }

  lemma FillMore(front: seq<Piece>, c: Piece, at: Checkout, slug: string)
    ensures Fill(front + [c], at, slug) == Fill(front, at, slug) + FillOne(c, at, slug)
  {
    FillAppend(front, c, at, slug);
  }

  lemma ListReads(at: Checkout, slug: string)
    ensures Fill(LIST, at, slug) == at.cli + " mcp list        " + "               # every" + " tool + description"
  {
    hide Fill;
    FillThree(LIST[0], LIST[1], LIST[2], at, slug);
    FillMore([LIST[0], LIST[1], LIST[2]], LIST[3], at, slug);
    assert LIST == [LIST[0], LIST[1], LIST[2]] + [LIST[3]];
  }

  lemma DescribeReads(at: Checkout, slug: string)
    ensures Fill(DESCRIBE, at, slug) == at.cli + " mcp describe" + " loregarden_get_ticket"
  {
    hide Fill;
    FillThree(DESCRIBE[0], DESCRIBE[1], DESCRIBE[2], at, slug);
  }

  lemma CallReads(at: Checkout, slug: string)
    ensures Fill(CALL, at, slug)
         == at.cli + " mcp call" + " loregarden_get_ticket" + " external_id=<slug>" + " workspace_slug=" + slug
  {
    hide Fill;
    var three := [CALL[0], CALL[1], CALL[2]];
    FillThree(CALL[0], CALL[1], CALL[2], at, slug);
    FillMore(three, CALL[3], at, slug);
    FillMore(three + [CALL[3]], CALL[4], at, slug);
    FillMore(three + [CALL[3]] + [CALL[4]], CALL[5], at, slug);
    assert CALL == three + [CALL[3]] + [CALL[4]] + [CALL[5]];
  }

  lemma ReferenceReads(at: Checkout, slug: string)
    ensures Fill(REFERENCE, at, slug) == "Full agent-facing reference: `" + at.asset + "`"
  {
    hide Fill;
    FillThree(REFERENCE[0], REFERENCE[1], REFERENCE[2], at, slug);
  }

  /** The lines with something filled in, where they stand: the slug line second, the three
      commands together between the two stretches of wording, the reference last but one. */
  lemma SectionReads(intro: seq<seq<Piece>>, guide: seq<seq<Piece>>, at: Checkout, slug: string)
    ensures var (b, n) := (DocTemplate(intro, guide).Render(at, slug), |intro|);
            && |b| == n + |guide| + 7
            && b[0] == "<!-- >>> loregarden control plane" + " (managed) >>> -->"
            && b[1] == "<!-- loregarden-workspace-slug:" + " " + slug + " -->"
            && b[n + 2] == at.cli + " mcp list        " + "               # every" + " tool + description"
            && b[n + 3] == at.cli + " mcp describe" + " loregarden_get_ticket"
            && b[n + 4]
               == at.cli + " mcp call" + " loregarden_get_ticket" + " external_id=<slug>" + " workspace_slug=" + slug
            && b[|b| - 2] == "Full agent-facing reference: `" + at.asset + "`"
            && b[|b| - 1] == "<!-- <<< loregarden control plane" + " (managed) <<< -->"
    ensures var (b, n) := (DocTemplate(intro, guide).Render(at, slug), |intro|);
            && (forall i | 0 <= i < n :: b[i + 2] == Fill(intro[i], at, slug))
            && (forall i | 0 <= i < |guide| :: b[n + 5 + i] == Fill(guide[i], at, slug))
  {
    hide Fill, LIST, DESCRIBE, CALL, REFERENCE, Template.Render;
    var t, n := DocTemplate(intro, guide), |intro|;
    RenderIs(t, at, slug);
    ListReads(at, slug);
    DescribeReads(at, slug);
    CallReads(at, slug);
    ReferenceReads(at, slug);
    ProseIs(intro, guide);
    forall i | 0 <= i < |guide| ensures t.Render(at, slug)[n + 5 + i] == Fill(guide[i], at, slug) {
      assert t.Render(at, slug)[(n + 3 + i) + 2] == Fill(t.prose[n + 3 + i], at, slug);
    }
  }

  lemma ProseIs(intro: seq<seq<Piece>>, guide: seq<seq<Piece>>)
    ensures var (p, n) := (DocTemplate(intro, guide).prose, |intro|);
            && |p| == n + |guide| + 4
            && p[n] == LIST && p[n + 1] == DESCRIBE && p[n + 2] == CALL && p[|p| - 1] == REFERENCE
            && (forall i | 0 <= i < n :: p[i] == intro[i])
            && (forall i | 0 <= i < |guide| :: p[n + 3 + i] == guide[i])
  {
    hide LIST, DESCRIBE, CALL, REFERENCE;
  }

  // ---------------------------------------------------------------- a new file

  lemma HeaderBody()
    ensures Head(HEADER) == HEADER
  {
    assert HEADER[0][0] == '#' && HEADER[2] == NOTES_HEAD + NOTES_TAIL && HEADER[2][0] == NOTES_HEAD[0] == 'O';
    hide NOTES_HEAD, NOTES_TAIL;
    BlankIff(HEADER[2]);
    assert HEADER[2][0] !in WHITE;
    hide WHITE, Blank, Head;
    assert Tidy(HEADER);
    HeadIsAllIff(HEADER);
  }

  lemma HeaderIsFree()
    ensures Markers(BEGIN, END).Free(HEADER)
  {
    BeginFacts();
    EndFacts();
    BeginHead();
    EndHead();
    HeaderStarts();
    hide BEGIN_HEAD, BEGIN_TAIL, END_HEAD, END_TAIL, HEADER, Strip, WHITE;
    assert BEGIN[0] == '<' && END[0] == '<';
    forall i | 0 <= i < |HEADER| ensures !Markers(BEGIN, END).On(HEADER[i]) {
      StripTrimmed(HEADER[i]);
    }
  }

  lemma HeaderStarts()
    ensures forall i | 0 <= i < |HEADER| :: Trimmed(HEADER[i]) && (HEADER[i] != "" ==> HEADER[i][0] != '<')
  {
    assert HEADER[2] == NOTES_HEAD + NOTES_TAIL && HEADER[2][0] == NOTES_HEAD[0] == 'O';
    assert HEADER[2][|HEADER[2]| - 1] == NOTES_TAIL[|NOTES_TAIL| - 1] == '.';
  }

  lemma HeaderText()
    ensures WriteText(HEADER, "\n") == "# AGENTS.md" + "\n" + "\n" + NOTES_HEAD + NOTES_TAIL + "\n" + "\n"
  {
    hide NOTES_HEAD, NOTES_TAIL, WriteText;
    WriteTextStep(HEADER, "\n");
    WriteTextStep(HEADER[1..], "\n");
    WriteTextStep(HEADER[1..][1..], "\n");
    WriteTextStep(HEADER[1..][1..][1..], "\n");
    assert HEADER[1..][1..][1..] == [""];
  }

  /** What an install makes where there is no file: the header and the section for the slug
      given, else the placeholder, in lines that end in a line feed, readable and writable for
      all less the umask. */
  lemma Created(intro: seq<seq<Piece>>, guide: seq<seq<Piece>>, req: Request, umask: bv12)
    requires IsWording(intro) && IsWording(guide) && !req.check
    ensures var t := DocTemplate(intro, guide);
            var section := t.Render(req.at, if req.slug != "" then req.slug else "<workspace-slug>");
            && Parts(Missing, t).Some?
            && Step(Missing, t, req, umask)
               == Regular(File(Utf8("# AGENTS.md" + "\n" + "\n"
                                    + "Operating notes for coding agents" + " in this repository." + "\n" + "\n"
                                    + WriteText(section, "\n")),
                               0x1B6 & !umask))
  {
    var t := DocTemplate(intro, guide);
    assert t.markers == Markers(BEGIN, END) && t.placeholder == "<workspace-slug>";
    DocTemplateValid(intro, guide);
    HeaderIsFree();
    HeaderBody();
    HeaderText();
    assert NOTES_HEAD == "Operating notes for coding agents" && NOTES_TAIL == " in this repository.";
    assert HEADER != [];
    hide BEGIN, END, NOTES_HEAD, NOTES_TAIL, HEADER, DocTemplate, WriteText, Head, Template.Valid, IsWording;
    CreatedBy(t, req, umask);
  }

  lemma CreatedBy(t: Template, req: Request, umask: bv12)
    requires t.markers.Free(HEADER) && Head(HEADER) == HEADER && HEADER != [] && !req.check
    ensures var section := t.Render(req.at, if req.slug != "" then req.slug else t.placeholder);
            && Parts(Missing, t).Some?
            && Step(Missing, t, req, umask)
               == Regular(File(Utf8(WriteText(HEADER, "\n") + WriteText(section, "\n")), 0x1B6 & !umask))
  {
    hide HEADER, WriteText, Head, Template.Render, Markers.Free;
    SplitOfFree(HEADER, t.markers);
    var section := t.Render(req.at, if req.slug != "" then req.slug else t.placeholder);
    WriteTextJoin(HEADER, section, "\n");
  }
}
