/** Installing, refreshing and checking the section of AGENTS.md
    (scripts/install_workspace_agents_doc.py, `_install`). */
module AgentsInstaller {
  import opened Lines
  import opened Text
  import opened ManagedBlock
  import opened Files
  import opened AgentsDoc

  /** `--workspace-slug` omitted and given empty mean the same. */
  datatype Request = Request(at: Checkout, slug: string, check: bool)

  const NOTES_HEAD := "Operating notes for coding agents"
  const NOTES_TAIL := " in this repository."
  const HEADER: seq<string> := ["# AGENTS.md", "", NOTES_HEAD + NOTES_TAIL, ""]

  function Chosen(recorded: Option<string>, slug: string, placeholder: string): string {
    if slug != "" then slug else if recorded.Some? then recorded.value else placeholder
  }

  function LinesVerdict(existed: bool, original: seq<string>, nl: string, t: Template, req: Request): Verdict {
    match SplitBlock(original, t.markers)
    case Refused => Exit(1)
    case Split(rest, existing) =>
      var slug := Chosen(SlugIn(existing, t.field), req.slug, t.placeholder);
      var updated := Compose(rest, t.Render(req.at, slug));
      if existed && updated == original then Exit(0)
      else if req.check then Exit(1)
      else Write(updated, nl)
  }

  /** The lines and line ending the installer starts from; `None` is a refusal. */
  function Start(node: Node): Option<(seq<string>, string)> {
    match node
    case Missing => Some((HEADER, "\n"))
    case Link(_) => None
    case Regular(File(NotUtf8(_), _)) => None
    case Regular(File(Utf8(text), _)) => Some((SplitLines(text), NewlineOf(text)))
  }

  function Decide(node: Node, t: Template, req: Request): Verdict {
    match Start(node)
    case None => Exit(1)
    case Some((original, nl)) => LinesVerdict(node != Missing, original, nl, t, req)
  }

  function Step(node: Node, t: Template, req: Request, umask: bv12): Node {
    match Decide(node, t, req)
    case Exit(_) => node
    case Write(lines, nl) => Written(node, lines, nl, umask)
  }

  method Install(dir: Directory, t: Template, req: Request, how: Circumstances) returns (code: nat)
    requires how.temp !in dir.temps
    modifies dir
    ensures dir.temps == old(dir.temps)
    ensures how.fault == NoFault ==> dir.target == Step(old(dir.target), t, req, how.umask)
    ensures how.fault == NoFault ==>
              code == match Decide(old(dir.target), t, req) case Exit(n) => n case Write(_, _) => 0
    ensures dir.target == old(dir.target) || (code == 0 && dir.target == Step(old(dir.target), t, req, how.umask))
    ensures old(dir.history) <= dir.history
    ensures forall i | |old(dir.history)| <= i < |dir.history| ::
              dir.history[i].target in {old(dir.target), Step(old(dir.target), t, req, how.umask)}
    ensures req.check || Decide(old(dir.target), t, req).Exit? ==>
              dir.target == old(dir.target) && dir.history == old(dir.history)
  {
    var start := Start(dir.target);
    if start.None? {
      return 1;
    }
    var (original, nl) := start.value;
    var split := SplitBlock(original, t.markers);
    if split.Refused? {
      return 1;
    }
    var recorded := FindSlug(split.block, t.field);
    var block := t.Render(req.at, Chosen(recorded, req.slug, t.placeholder));
    var updated := ComposeLines(split.rest, block);
    if dir.target != Missing && updated == original {
      return 0;
    }
    if req.check {
      return 1;
    }
    var outcome := dir.WriteLines(updated, nl, how);
    code := if outcome == Done then 0 else 1;
  }

  lemma NotesAreLines()
    ensures BoundaryFree(NOTES_HEAD) && BoundaryFree(NOTES_TAIL)
  {
  }

  lemma HeaderFacts()
    ensures AllBoundaryFree(HEADER)
  {
    NotesAreLines();
    TitleIsLine();
    hide BoundaryFree, NOTES_HEAD, NOTES_TAIL;
    JoinBoundaryFree(NOTES_HEAD, NOTES_TAIL);
  }

  lemma TitleIsLine()
    ensures BoundaryFree("# AGENTS.md") && BoundaryFree("")
  {
  }

  // ---------------------------------------------------------------- one run

  /** Everything filled in is free of line boundaries. */
  ghost predicate Fits(req: Request) {
    BoundaryFree(req.at.cli) && BoundaryFree(req.at.asset) && BoundaryFree(req.slug)
  }

  /** The workspace's own lines, trailing blank ones aside, and the section between them. */
  ghost function Parts(node: Node, t: Template): Option<(seq<string>, seq<string>)> {
    match Start(node)
    case None => None
    case Some((original, _)) =>
      match SplitBlock(original, t.markers)
      case Refused => None
      case Split(rest, existing) => Some((DropBlank(rest), existing))
  }

  ghost function Recorded(node: Node, t: Template): Option<string> {
    match Parts(node, t)
    case None => None
    case Some((_, existing)) => SlugIn(existing, t.field)
  }

  /** The slug a run renders. */
  ghost function SlugFor(node: Node, t: Template, req: Request): string {
    Chosen(Recorded(node, t), req.slug, t.placeholder)
  }

  lemma StartIsLines(node: Node)
    requires Start(node).Some?
    ensures AllBoundaryFree(Start(node).value.0) && IsNewline(Start(node).value.1)
    ensures node != Missing ==> TextOf(node).Some? && Start(node).value.0 == SplitLines(TextOf(node).value)
  {
    HeaderFacts();
    hide SplitLines, NewlineOf, BoundaryFree, HEADER;
  }

  lemma SlugForIsLine(node: Node, t: Template, req: Request)
    requires t.Valid() && Parts(node, t).Some?
    ensures BoundaryFree(req.slug) ==> BoundaryFree(SlugFor(node, t, req))
    ensures req.slug == "" ==>
              BoundaryFree(SlugFor(node, t, req)) && SlugFor(node, t, req) != "" && Trimmed(SlugFor(node, t, req))
  {
    hide SplitBlock, SlugIn, DropBlank, BoundaryFree, HEADER, Template.Safe, Template.Mute, Start;
    StartIsLines(node);
    var (original, _) := Start(node).value;
    SplitBoundaryFree(original, t.markers);
    RecordedIsTrimmed(Parts(node, t).value.1, t.field);
  }

  /** The own lines as they stand, trailing blank ones included. */
  ghost function Own(node: Node, t: Template): Option<seq<string>> {
    match Start(node)
    case None => None
    case Some((original, _)) =>
      match SplitBlock(original, t.markers)
      case Refused => None
      case Split(rest, _) => Some(rest)
  }

  lemma OwnFacts(node: Node, t: Template)
    requires t.Valid() && Parts(node, t).Some?
    ensures Start(node).Some? && Own(node, t).Some?
    ensures AllBoundaryFree(Own(node, t).value) && t.markers.Free(Own(node, t).value)
    ensures Parts(node, t).value.0 == DropBlank(Own(node, t).value)
    ensures IsBody(Own(node, t).value, Parts(node, t).value.0)
    ensures IsNewline(Start(node).value.1)
  {
    hide SplitBlock, DropBlank, BoundaryFree, HEADER, Template.Safe, Template.Mute, Start, Markers.Free;
    StartIsLines(node);
    SplitBoundaryFree(Start(node).value.0, t.markers);
    hide IsBody;
    DropBlankIsBody(Own(node, t).value);
  }

  /** What a run decides, from the own lines and the section it renders. */
  lemma Decision(node: Node, t: Template, req: Request)
    requires Parts(node, t).Some?
    ensures Start(node).Some? && Own(node, t).Some?
    ensures var updated := Compose(Own(node, t).value, t.Render(req.at, SlugFor(node, t, req)));
            Decide(node, t, req)
            == if node != Missing && updated == Start(node).value.0 then Exit(0)
               else if req.check then Exit(1) else Write(updated, Start(node).value.1)
  {
    hide SplitBlock, SlugIn, DropBlank, HEADER, SplitLines, NewlineOf, Compose, Template.Render, Start;
  }

  /** A file that cannot be split is refused, and stays. */
  lemma RefusedStays(node: Node, t: Template, req: Request, umask: bv12)
    requires Parts(node, t).None?
    ensures Decide(node, t, req) == Exit(1) && Step(node, t, req, umask) == node
  {
    hide SplitBlock, SlugIn, DropBlank, HEADER, SplitLines, NewlineOf, Compose, Template.Render, Start;
  }

  lemma PlainComposition(rest: seq<string>, block: seq<string>, nl: string)
    requires AllBoundaryFree(rest) && IsNewline(nl)
    ensures Compose(rest, block) == Head(rest) + Reread(block, nl) <==> AllBoundaryFree(block)
  {
    hide Reread, Head, BoundaryFree;
    RereadIff(block, nl);
    var head := Head(rest);
    assert (head + block)[|head|..] == block && (head + Reread(block, nl))[|head|..] == Reread(block, nl);
  }

  /** An install that is not refused leaves the workspace's own lines, one blank line, and
      the section for this checkout and slug as a reader finds it, whether or not it had to
      write. The file can be split again exactly when no line of the section breaks into a
      marker. */
  lemma StepLeaves(node: Node, t: Template, req: Request, umask: bv12)
    requires t.Valid() && !req.check && Parts(node, t).Some?
    ensures Start(node).Some?
    ensures var node' := Step(node, t, req, umask);
            var (body, nl) := (Parts(node, t).value.0, Start(node).value.1);
            var slug := SlugFor(node, t, req);
            var block := t.Render(req.at, slug);
            && Decide(node, t, req) != Exit(1) && node' != Missing
            && Own(node, t).Some? && IsBody(Own(node, t).value, body)
            && Head(body) == (if body == [] then [] else body + [""])
            && Start(node') == Some((Head(body) + Reread(block, nl), nl))
            && Own(node', t) == (if Harmless(t, req.at, slug, nl) then Some(Head(body)) else None)
            && Parts(node', t) == (if Harmless(t, req.at, slug, nl) then Some((body, Reread(block, nl))) else None)
            && (Decide(node, t, req) == Exit(0) ==> AllBoundaryFree(block))
  {
    hide SplitBlock, SlugIn, BoundaryFree, HEADER, SplitLines, WriteText, NewlineOf, Reread, Harmless, Strip;
    hide Compose, Template.Render, Template.Valid, NewMode, Head, DropBlank, Decide;
    OwnFacts(node, t);
    Decision(node, t, req);
    var rest, nl, slug := Own(node, t).value, Start(node).value.1, SlugFor(node, t, req);
    var block := t.Render(req.at, slug);
    HeadFacts(rest);
    BodyHead(rest);
    hide IsBody;
    ComposeSplits(rest, t, req.at, slug, nl);
    if Decide(node, t, req).Write? {
      ComposeReread(rest, t, req.at, slug, nl);
    } else {
      StartIsLines(node);
      ComposedIsPlain(rest, block);
      PlainComposition(rest, block, nl);
    }
  }

  lemma BodyHead(rest: seq<string>)
    ensures Head(DropBlank(rest)) == if DropBlank(rest) == [] then [] else DropBlank(rest) + [""]
  {
    hide DropBlank;
    HeadFacts(rest);
  }

  lemma ComposedIsPlain(rest: seq<string>, block: seq<string>)
    requires AllBoundaryFree(Compose(rest, block))
    ensures AllBoundaryFree(block)
  {
    hide BoundaryFree, Head;
    BoundaryFreeParts(Head(rest), block);
  }

  /** A file keeps its line ending and its permission bits. */
  lemma StepKeepsEndingAndMode(node: Node, t: Template, req: Request, umask: bv12)
    requires t.Valid() && node.Regular?
    ensures EndingAndMode(Step(node, t, req, umask)) == EndingAndMode(node)
  {
    hide SplitBlock, SlugIn, BoundaryFree, SplitLines, WriteText;
    hide NewlineOf, Reread, Compose, Template.Render, Template.Valid;
    hide Head, DropBlank, Decide;
    if Parts(node, t).None? {
      RefusedStays(node, t, req, umask);
    } else {
      OwnFacts(node, t);
      Decision(node, t, req);
      ComposeReread(Own(node, t).value, t, req.at, SlugFor(node, t, req), Start(node).value.1);
    }
  }

  // ---------------------------------------------------------------- one run and the next

  /** The run after an install renders the same slug. */
  lemma SlugSettles(node: Node, t: Template, req: Request, umask: bv12)
    requires t.Valid() && !req.check && Parts(node, t).Some?
    requires Parts(Step(node, t, req, umask), t).Some?
    ensures SlugFor(Step(node, t, req, umask), t, req) == SlugFor(node, t, req)
  {
    hide Start, SplitBlock, SlugIn, BoundaryFree, Reread, Harmless;
    hide Strip, Template.Render, Template.Valid, Head, DropBlank;
    hide Step, Decide, Parts;
    StepLeaves(node, t, req, umask);
    OwnFacts(node, t);
    SlugForIsLine(node, t, req);
    if req.slug == "" {
      var slug := SlugFor(node, t, req);
      StripTrimmed(slug);
      VisibleIsKept(t, req.at, slug, Start(node).value.1);
    }
  }

  /** What the run after an install decides, checking or not. */
  lemma RerunVerdict(node: Node, t: Template, req: Request, umask: bv12, check: bool)
    requires t.Valid() && !req.check && Parts(node, t).Some?
    ensures Start(node).Some?
    ensures var block := t.Render(req.at, SlugFor(node, t, req));
            Decide(Step(node, t, req, umask), t, req.(check := check))
            == if !Harmless(t, req.at, SlugFor(node, t, req), Start(node).value.1) then Exit(1)
               else if AllBoundaryFree(block) then Exit(0)
               else if check then Exit(1)
               else Write(Compose(Own(node, t).value, block), Start(node).value.1)
  {
    hide Start, SplitBlock, SlugIn, BoundaryFree, Reread, Harmless;
    hide Strip, Template.Render, Template.Valid, DropBlank, Head;
    hide Step, Decide, Own, Parts, Compose;
    var node' := Step(node, t, req, umask);
    StepLeaves(node, t, req, umask);
    OwnFacts(node, t);
    var rest, nl := Own(node, t).value, Start(node).value.1;
    var again := req.(check := check);
    if Parts(node', t).None? {
      RefusedStays(node', t, again, umask);
    } else {
      SlugSettles(node, t, req, umask);
      assert SlugFor(node', t, again) == SlugFor(node', t, req);
      Decision(node', t, again);
      HeadFacts(rest);
      var block := t.Render(req.at, SlugFor(node, t, req));
      ComposedAgain(rest, block);
      PlainComposition(rest, block, nl);
    }
  }

  lemma ComposedAgain(rest: seq<string>, block: seq<string>)
    ensures Compose(Head(DropBlank(rest)), block) == Compose(rest, block)
  {
    hide Head, DropBlank;
    HeadFacts(rest);
  }

  /** Byte for byte, mode included, a second run changes nothing: whatever the file, the
      checkout's paths and the slug. */
  lemma SameBytes(node: Node, t: Template, req: Request, umask: bv12)
    requires t.Valid() && !req.check
    ensures Step(Step(node, t, req, umask), t, req, umask) == Step(node, t, req, umask)
  {
    hide Decide, Parts, Own, Start, Harmless, Template.Render;
    hide Template.Valid, BoundaryFree, Compose, WriteText, NewMode;
    if Parts(node, t).None? {
      RefusedStays(node, t, req, umask);
    } else {
      assert req.(check := false) == req;
      RerunVerdict(node, t, req, umask, false);
      StepLeaves(node, t, req, umask);
      Decision(node, t, req);
      var v := Decide(node, t, req);
      if v.Write? {
        ModeSettles(node, v.lines, v.nl, umask, umask);
      }
    }
  }

  ghost predicate Succeeds(v: Verdict) {
    v.Write? || v == Exit(0)
  }

  /** An install returns 0 exactly when there is no file, or the file is text, and its lines
      (a new file's being the header) can be split. */
  lemma SucceedsIff(node: Node, t: Template, req: Request)
    requires !req.check
    ensures Succeeds(Decide(node, t, req)) || Decide(node, t, req) == Exit(1)
    ensures Succeeds(Decide(node, t, req)) <==>
              || (node.Missing? && SplitBlock(HEADER, t.markers).Split?)
              || (node.Regular? && node.file.content.Utf8?
                  && SplitBlock(SplitLines(node.file.content.text), t.markers).Split?)
  {
    hide SplitBlock, SlugIn, HEADER, SplitLines, NewlineOf, Compose, Template.Render;
  }

  /** Idempotence: after an install that was not refused the same run leaves the identical
      file, and returns 0 exactly when no line of the section breaks into a marker; also when
      the first run had to create the file. */
  lemma Idempotent(node: Node, t: Template, req: Request, umask: bv12)
    requires t.Valid() && !req.check && Parts(node, t).Some?
    ensures Start(node).Some?
    ensures var node' := Step(node, t, req, umask);
            && Step(node', t, req, umask) == node'
            && (Succeeds(Decide(node', t, req))
                <==> Harmless(t, req.at, SlugFor(node, t, req), Start(node).value.1))
  {
    hide Decide, Parts, Own, Start, Harmless, Template.Render, Template.Valid, BoundaryFree, Compose, Step;
    assert req.(check := false) == req;
    SameBytes(node, t, req, umask);
    RerunVerdict(node, t, req, umask, false);
  }

  /** `--check` agrees with the install before it exactly when the section is made of lines. */
  lemma CheckAfterInstallIff(node: Node, t: Template, req: Request, umask: bv12)
    requires t.Valid() && !req.check && Parts(node, t).Some?
    ensures Decide(Step(node, t, req, umask), t, req.(check := true)) == Exit(0)
       <==> AllBoundaryFree(t.Render(req.at, SlugFor(node, t, req)))
  {
    hide Decide, Parts, Own, Start, Harmless, Template.Render, Template.Valid, BoundaryFree, Compose, Step;
    RerunVerdict(node, t, req, umask, true);
    if AllBoundaryFree(t.Render(req.at, SlugFor(node, t, req))) {
      OwnFacts(node, t);
      PlainIsHarmless(t, req.at, SlugFor(node, t, req), Start(node).value.1);
    }
  }

  /** What is filled in decides it: the section is made of lines exactly when both paths and
      the slug argument are. */
  lemma FitsIff(node: Node, t: Template, req: Request)
    requires t.Valid() && Parts(node, t).Some?
    ensures Fits(req) ==> AllBoundaryFree(t.Render(req.at, SlugFor(node, t, req)))
    ensures t.Mentions() ==> (AllBoundaryFree(t.Render(req.at, SlugFor(node, t, req))) <==> Fits(req))
  {
    hide Parts, Start, Template.Render, Template.Valid, Template.Mentions, BoundaryFree, Recorded;
    SlugForIsLine(node, t, req);
    RenderBoundaryFree(t, req.at, SlugFor(node, t, req));
    EmptyBoundaryFree();
  }

  /** The own lines and their order are untouched exactly when they end in one empty line, or
      there are none: any other tail is trimmed to one. */
  lemma OwnLinesKeptIff(node: Node, t: Template, req: Request, umask: bv12)
    requires t.Valid() && !req.check && Parts(node, t).Some?
    requires Parts(Step(node, t, req, umask), t).Some?
    ensures Own(node, t).Some?
    ensures Own(Step(node, t, req, umask), t) == Own(node, t) <==> Tidy(Own(node, t).value)
  {
    hide Decide, Parts, Start, Harmless, Template.Render, Template.Valid;
    hide BoundaryFree, Step, Own, Head, DropBlank, Tidy;
    StepLeaves(node, t, req, umask);
    OwnFacts(node, t);
    HeadFacts(Own(node, t).value);
    HeadIsAllIff(Own(node, t).value);
  }

  /** `--check` never writes, and returns 0 exactly when the file exists and an install
      would return 0 without writing. */
  lemma CheckIsExact(node: Node, t: Template, req: Request, umask: bv12)
    requires !req.check
    ensures var checking := req.(check := true);
            && Decide(node, t, checking).Exit? && Step(node, t, checking, umask) == node
            && (Decide(node, t, checking).code == 0 <==> Decide(node, t, req) == Exit(0))
            && (Decide(node, t, checking).code == 0 ==> node.Regular?)
  {
    hide SplitBlock, SlugIn, Compose, HEADER, SplitLines, NewlineOf, Template.Render;
  }

  /** Killed at any step and run again, an install ends with the file of the run that was
      not killed, a file it was creating included. */
  lemma KilledThenRerun(node: Node, t: Template, req: Request, umask: bv12, killed: Node)
    requires t.Valid() && !req.check && killed in {node, Step(node, t, req, umask)}
    ensures Step(killed, t, req, umask) == Step(node, t, req, umask)
  {
    SameBytes(node, t, req, umask);
  }

  // ---------------------------------------------------------------- every sequence of runs

  ghost function RunAll(node: Node, t: Template, ops: seq<Request>, umask: bv12): Node {
    if ops == [] then node
    else Step(RunAll(node, t, ops[..|ops| - 1], umask), t, ops[|ops| - 1], umask)
  }

  ghost predicate AllFit(ops: seq<Request>) {
    forall i | 0 <= i < |ops| :: Fits(ops[i])
  }

  /** The slug the file records after these runs: each install replaces it by what a reader
      finds of the one given, recorded or assumed. */
  ghost function Remembered(t: Template, before: Option<string>, ops: seq<Request>, nl: string): Option<string> {
    if ops == [] then before
    else
      var req, recorded := ops[|ops| - 1], Remembered(t, before, ops[..|ops| - 1], nl);
      if req.check then recorded else Kept(t, req.at, Chosen(recorded, req.slug, t.placeholder), nl)
  }

  lemma CheckKeeps(node: Node, t: Template, req: Request, umask: bv12)
    requires req.check
    ensures Step(node, t, req, umask) == node
  {
    CheckIsExact(node, t, req.(check := false), umask);
    assert req.(check := false).(check := true) == req;
  }

  /** Over every sequence of installs and checks, whatever the paths and slugs, the ending
      stays; and the file is refused, or the workspace's own lines survive, trailing blank
      ones aside, and the slug is remembered. With boundary-free paths and slugs it is never
      refused. */
  lemma {:induction false} RunsRemember(node: Node, t: Template, ops: seq<Request>, umask: bv12)
    requires t.Valid() && Parts(node, t).Some?
    ensures Start(node).Some?
    ensures var last, nl := RunAll(node, t, ops, umask), Start(node).value.1;
            && Start(last).Some? && Start(last).value.1 == nl
            && (Parts(last, t).Some? ==>
                  && Own(node, t).Some? && Own(last, t).Some?
                  && (exists body :: IsBody(Own(node, t).value, body) && IsBody(Own(last, t).value, body))
                  && Parts(last, t).value.0 == Parts(node, t).value.0
                  && Recorded(last, t) == Remembered(t, Recorded(node, t), ops, nl))
            && (AllFit(ops) ==> Parts(last, t).Some?)
  {
    hide Step, Parts, Recorded, Template.Valid, Kept, Start, Fits, IsBody, Own;
    OwnFacts(node, t);
    if ops == [] {
    } else {
      var before, req := ops[..|ops| - 1], ops[|ops| - 1];
      var mid := RunAll(node, t, before, umask);
      RunsRemember(node, t, before, umask);
      if req.check {
        CheckKeeps(mid, t, req, umask);
      } else if Parts(mid, t).None? {
        RefusedStays(mid, t, req, umask);
      } else {
        StepRemembers(mid, t, req, umask);
      }
    }
    var last := RunAll(node, t, ops, umask);
    if Parts(last, t).Some? {
      OwnFacts(last, t);
    }
  }

  lemma StepRemembers(node: Node, t: Template, req: Request, umask: bv12)
    requires t.Valid() && !req.check && Parts(node, t).Some?
    ensures Start(node).Some?
    ensures var node' := Step(node, t, req, umask);
            && Start(node').Some? && Start(node').value.1 == Start(node).value.1
            && (Parts(node', t).Some? ==>
                  && Parts(node', t).value.0 == Parts(node, t).value.0
                  && Recorded(node', t) == Kept(t, req.at, SlugFor(node, t, req), Start(node).value.1))
            && (Fits(req) ==> Parts(node', t).Some?)
  {
    hide Step, Parts, Template.Valid, Template.Render, Start, Harmless;
    hide Fits, SlugFor, SlugIn, Head, Reread, BoundaryFree;
    StepLeaves(node, t, req, umask);
    FitsIff(node, t, req);
    OwnFacts(node, t);
    if Fits(req) {
      PlainIsHarmless(t, req.at, SlugFor(node, t, req), Start(node).value.1);
    }
  }

  /** The last slug an install was given explicitly. */
  ghost function LastExplicit(ops: seq<Request>): Option<string> {
    if ops == [] then None
    else
      var req := ops[|ops| - 1];
      if !req.check && req.slug != "" then Some(req.slug) else LastExplicit(ops[..|ops| - 1])
  }

  /** The slug argument of the last install. */
  ghost function LastGiven(ops: seq<Request>): Option<string> {
    if ops == [] then None
    else if !ops[|ops| - 1].check then Some(ops[|ops| - 1].slug)
    else LastGiven(ops[..|ops| - 1])
  }

  ghost predicate Recordable(slug: Option<string>) {
    slug.Some? ==> BoundaryFree(slug.value) && Trimmed(slug.value) && slug.value != ""
  }

  /** With boundary-free paths and slugs, the slug remembered is the last explicit one,
      stripped; with none, the one recorded before, else the placeholder once anything has
      been installed. A blank one erases what was recorded, so that the next install without
      one falls back to the placeholder. */
  lemma {:induction false} RememberedIs(t: Template, before: Option<string>, ops: seq<Request>, nl: string)
    requires t.Valid() && AllFit(ops) && Recordable(before) && IsNewline(nl)
    ensures var e, r := LastExplicit(ops), Remembered(t, before, ops, nl);
            && Recordable(r)
            && (e.Some? && Strip(e.value) != "" ==> r == Some(Strip(e.value)))
            && (e.Some? && Strip(e.value) == "" ==>
                  LastGiven(ops).Some? && r == if LastGiven(ops).value != "" then None else Some(t.placeholder))
            && (e.None? ==>
                  r == if before.Some? then before else if LastGiven(ops).Some? then Some(t.placeholder) else None)
  {
    hide Strip, BoundaryFree, Kept, Trimmed, Template.Safe, Template.Mute;
    if ops == [] {
    } else {
      var prev, req := ops[..|ops| - 1], ops[|ops| - 1];
      RememberedIs(t, before, prev, nl);
      if !req.check {
        var recorded := Remembered(t, before, prev, nl);
        var slug := Chosen(recorded, req.slug, t.placeholder);
        KeptIs(t, req.at, slug, nl);
        if req.slug == "" {
          StripTrimmed(slug);
        }
      }
    }
  }

  lemma KeptIs(t: Template, at: Checkout, slug: string, nl: string)
    requires t.Valid() && IsNewline(nl) && BoundaryFree(at.cli) && BoundaryFree(at.asset) && BoundaryFree(slug)
    ensures Kept(t, at, slug, nl) == if Strip(slug) == "" then None else Some(Strip(slug))
    ensures Recordable(Kept(t, at, slug, nl))
  {
    hide Strip, BoundaryFree, Template.Valid, Kept;
    if Strip(slug) == "" {
      BlankIsNotKept(t, at, slug, nl);
    } else {
      VisibleIsKept(t, at, slug, nl);
      StripIsLine(slug);
    }
  }

  lemma StripIsLine(s: string)
    requires BoundaryFree(s)
    ensures BoundaryFree(Strip(s)) && Trimmed(Strip(s))
  {
    var pre, post := StripShape(s);
    hide Strip, BoundaryFree;
    JoinBoundaryFree(pre + Strip(s), post);
    JoinBoundaryFree(pre, Strip(s));
  }

  /** History independence: after any runs that have not got the file refused, an install
      leaves the lines of the original file, trailing blank ones aside, one blank line, and
      the section for its own checkout and the slug given now, else remembered. */
  lemma HistoryIndependent(node: Node, t: Template, ops: seq<Request>, req: Request, umask: bv12)
    requires t.Valid() && !req.check && Parts(node, t).Some? && Parts(RunAll(node, t, ops, umask), t).Some?
    ensures Start(node).Some?
    ensures var nl := Start(node).value.1;
            var slug := Chosen(Remembered(t, Recorded(node, t), ops, nl), req.slug, t.placeholder);
            var (body, block) := (Parts(node, t).value.0, t.Render(req.at, slug));
            && Own(node, t).Some? && IsBody(Own(node, t).value, body)
            && Head(body) == (if body == [] then [] else body + [""])
            && Start(Step(RunAll(node, t, ops, umask), t, req, umask)) == Some((Head(body) + Reread(block, nl), nl))
            && (Fits(req) ==> Head(body) + Reread(block, nl) == Compose(body, block))
  {
    hide Step, Parts, Recorded, Template.Valid, Template.Render, Start;
    hide Fits, RunAll, Remembered, Head, Reread, BoundaryFree;
    var mid := RunAll(node, t, ops, umask);
    RunsRemember(node, t, ops, umask);
    StepLeaves(mid, t, req, umask);
    FitsIff(mid, t, req);
    OwnFacts(mid, t);
    OwnFacts(node, t);
    if Fits(req) {
      RereadPlain(t.Render(req.at, SlugFor(mid, t, req)), Start(mid).value.1);
    }
  }
}
