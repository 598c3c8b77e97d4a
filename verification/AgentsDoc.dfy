/** The managed section of a workspace's AGENTS.md: what is filled in, the slug it records and
    where it goes (scripts/install_workspace_agents_doc.py, `render_block`, `slug_in` and
    `compose`). */
module AgentsDoc {
  import opened Lines
  import opened Text
  import opened ManagedBlock

  /** A fragment of a line of the section: fixed wording, or something filled in. */
  datatype Piece = Words(text: string) | Cli | Asset | Slug

  /** What one loregarden checkout fills in. */
  datatype Checkout = Checkout(cli: string, asset: string)

  function FillOne(piece: Piece, at: Checkout, slug: string): string {
    match piece
    case Words(text) => text
    case Cli => at.cli
    case Asset => at.asset
    case Slug => slug
  }

  function Fill(pieces: seq<Piece>, at: Checkout, slug: string): string {
    if pieces == [] then "" else FillOne(pieces[0], at, slug) + Fill(pieces[1..], at, slug)
  }

  /** Slugs aside, the line ends in wording, at a visible character that closes no comment. */
  ghost predicate EndsPlainly(pieces: seq<Piece>) {
    pieces != [] &&
    match pieces[|pieces| - 1]
    case Slug => EndsPlainly(pieces[..|pieces| - 1])
    case Words(text) => text != "" && !IsSpace(text[|text| - 1]) && text[|text| - 1] != '>'
    case _ => false
  }

  /** `field` is what a slug line begins with; `prose` is the wording between it and the end. */
  datatype Template = Template(markers: Markers, field: string, placeholder: string, prose: seq<seq<Piece>>) {

    function SlugLine(slug: string): string {
      field + " " + slug + " -->"
    }

    /** `render_block`. */
    function Render(at: Checkout, slug: string): (block: seq<string>)
      ensures |block| == |prose| + 3
    {
      [markers.begin, SlugLine(slug)]
      + seq(|prose|, i requires 0 <= i < |prose| => Fill(prose[i], at, slug))
      + [markers.end]
    }

    /** Cannot turn into a marker: nothing is filled in and it is none, or some fixed
        visible character in it occurs in neither marker. */
    ghost predicate Safe(pieces: seq<Piece>) {
      || (pieces == [])
      || exists i, j | 0 <= i < |pieces| && pieces[i].Words? && 0 <= j < |pieces[i].text| ::
           var c := pieces[i].text[j]; !IsSpace(c) && c !in markers.begin && c !in markers.end
    }

    /** Cannot turn into a slug line by having a blank slug filled in. */
    ghost predicate Mute(pieces: seq<Piece>) {
      || pieces == []
      || (|pieces| == 1 && pieces[0].Words? && SlugOf(pieces[0].text, field).None?)
      || EndsPlainly(pieces)
    }

    /** Both paths are filled in somewhere. */
    ghost predicate Mentions() {
      && (exists i, j | 0 <= i < |prose| && 0 <= j < |prose[i]| :: prose[i][j] == Cli)
      && (exists i, j | 0 <= i < |prose| && 0 <= j < |prose[i]| :: prose[i][j] == Asset)
    }

    ghost predicate Valid() {
      && markers.Valid() && BoundaryFree(markers.begin) && BoundaryFree(markers.end)
      && field != "" && !IsSpace(field[0]) && BoundaryFree(field)
      && !StartsWith(markers.begin, field) && !StartsWith(markers.end, field)
      && placeholder != "" && Trimmed(placeholder) && BoundaryFree(placeholder)
      && (forall i | 0 <= i < |prose| :: Safe(prose[i]) && Mute(prose[i]))
      && (forall i, j | 0 <= i < |prose| && 0 <= j < |prose[i]| ::
            prose[i][j].Words? ==> BoundaryFree(prose[i][j].text))
    }
  }

  /** One element of `slug_in`'s search. */
  function SlugOf(line: string, field: string): Option<string> {
    var s := Strip(line);
    if StartsWith(s, field) && EndsWith(s, "-->") && |field| + 3 <= |s| then
      var value := Strip(s[|field|..|s| - 3]);
      if value != "" then Some(value) else None
    else None
  }

  function SlugIn(block: seq<string>, field: string): Option<string> {
    if block == [] then None
    else if SlugOf(block[0], field).Some? then SlugOf(block[0], field)
    else SlugIn(block[1..], field)
  }

  method FindSlug(block: seq<string>, field: string) returns (r: Option<string>)
    ensures r == SlugIn(block, field)
  {
    var i := 0;
    while i < |block|
      invariant 0 <= i <= |block|
      invariant SlugIn(block, field) == SlugIn(block[i..], field)
    {
      var stripped := Strip(block[i]);
      if StartsWith(stripped, field) && EndsWith(stripped, "-->") && |field| + 3 <= |stripped| {
        var value := Strip(stripped[|field|..|stripped| - 3]);
        if value != "" {
          return Some(value);
        }
      }
      i := i + 1;
    }
    r := None;
  }

  /** The lines without their trailing run of blank ones. */
  function DropBlank(lines: seq<string>): seq<string> {
    lines[..TrimBlank(lines, 0, |lines|)]
  }

  /** What stands before the section: the own lines and, if there are any, a blank one. */
  function Head(rest: seq<string>): seq<string> {
    var body := DropBlank(rest);
    if body == [] then [] else body + [""]
  }

  function Compose(rest: seq<string>, block: seq<string>): seq<string> {
    Head(rest) + block
  }

  /** The lines up to the last one with a visible character. */
  ghost predicate IsBody(rest: seq<string>, body: seq<string>) {
    && body <= rest
    && (forall i | |body| <= i < |rest| :: AllWhite(rest[i]))
    && (body != [] ==> !AllWhite(body[|body| - 1]))
  }

  lemma DropBlankIsBody(rest: seq<string>)
    ensures IsBody(rest, DropBlank(rest))
  {
    hide Strip, AllWhite, Blank;
    var body := DropBlank(rest);
    forall i | 0 <= i < |rest| ensures Blank(rest[i]) <==> AllWhite(rest[i]) {
      BlankIff(rest[i]);
    }
    assert forall i | 0 <= i < |body| :: body[i] == rest[i];
  }

  lemma BodyUnique(rest: seq<string>, a: seq<string>, b: seq<string>)
    requires IsBody(rest, a) && IsBody(rest, b)
    ensures a == b
  {
    hide AllWhite;
    assert forall i | 0 <= i < |a| :: a[i] == rest[i];
    assert forall i | 0 <= i < |b| :: b[i] == rest[i];
    assert |a| == |b|;
  }

  method ComposeLines(rest: seq<string>, block: seq<string>) returns (r: seq<string>)
    ensures r == Compose(rest, block)
    ensures exists body :: IsBody(rest, body) && r == (if body == [] then [] else body + [""]) + block
  {
    hide Blank, IsBody;
    DropBlankIsBody(rest);
    var body := rest;
    while body != [] && Blank(body[|body| - 1])
      invariant body <= rest
      invariant TrimBlank(rest, 0, |rest|) == TrimBlank(rest, 0, |body|)
      decreases |body|
    {
      body := body[..|body| - 1];
    }
    if body != [] {
      body := body + [""];
    }
    r := body + block;
  }

  /** A line records a slug exactly when, white space around it aside, it is the field, the
      slug between white space, and the end of a comment. */
  lemma SlugOfIff(line: string, field: string, slug: string)
    requires field != "" && !IsSpace(field[0])
    ensures SlugOf(line, field) == Some(slug)
       <==> slug != "" && Trimmed(slug) && exists mid :: Padded(line, field + mid + "-->") && Padded(mid, slug)
  {
    hide Strip, Padded, IsSpace;
    if SlugOf(line, field) == Some(slug) {
      var s := Strip(line);
      var mid := s[|field|..|s| - 3];
      assert s == field + mid + "-->";
      var pre, post := StripShape(line);
      StripsToIff(line, s);
      var pre', post' := StripShape(mid);
      StripsToIff(mid, slug);
      assert Padded(line, field + mid + "-->") && Padded(mid, slug);
    }
    forall mid | slug != "" && Trimmed(slug) && Padded(line, field + mid + "-->") && Padded(mid, slug)
      ensures SlugOf(line, field) == Some(slug)
    {
      var s := field + mid + "-->";
      FieldLineIsTrimmed(field, mid);
      StripsToIff(line, s);
      StripsToIff(mid, slug);
      assert s[..|field|] == field && s[|s| - 3..] == "-->" && s[|field|..|s| - 3] == mid;
    }
  }

  lemma FieldLineIsTrimmed(field: string, mid: string)
    requires field != "" && !IsSpace(field[0])
    ensures Trimmed(field + mid + "-->")
  {
    var s := field + mid + "-->";
    assert s[0] == field[0] && s[|s| - 1] == "-->"[2] == '>';
  }

  /** The slug of a block is the one on its first line that records any. */
  lemma {:induction false} SlugInIsFirst(block: seq<string>, field: string, i: nat)
    requires i < |block| && SlugOf(block[i], field).Some?
    requires forall j | 0 <= j < i :: SlugOf(block[j], field).None?
    ensures SlugIn(block, field) == SlugOf(block[i], field)
  {
    hide SlugOf;
    if i == 0 {
    } else {
      SlugInIsFirst(block[1..], field, i - 1);
    }
  }

  // ---------------------------------------------------------------- filling in

  lemma {:induction false} FillBoundaryFree(pieces: seq<Piece>, at: Checkout, slug: string)
    ensures BoundaryFree(Fill(pieces, at, slug)) <==>
              forall j | 0 <= j < |pieces| :: BoundaryFree(FillOne(pieces[j], at, slug))
  {
    hide BoundaryFree, FillOne;
    if pieces == [] {
      EmptyBoundaryFree();
    } else {
      FillBoundaryFree(pieces[1..], at, slug);
      JoinBoundaryFree(FillOne(pieces[0], at, slug), Fill(pieces[1..], at, slug));
      assert forall j | 0 < j < |pieces| :: pieces[j] == pieces[1..][j - 1];
      assert forall j | 0 <= j < |pieces| - 1 :: pieces[1..][j] == pieces[j + 1];
    }
  }

  lemma PunctuationIsBoundaryFree()
    ensures BoundaryFree(" ") && BoundaryFree(" -->")
  {
  }

  lemma EmptyBoundaryFree()
    ensures BoundaryFree("")
  {
  }

  lemma {:induction false} FillKeeps(pieces: seq<Piece>, at: Checkout, slug: string, i: nat, j: nat)
    requires i < |pieces| && pieces[i].Words? && j < |pieces[i].text|
    ensures pieces[i].text[j] in Fill(pieces, at, slug)
  {
    if i > 0 {
      FillKeeps(pieces[1..], at, slug, i - 1, j);
    }
  }

  lemma SafeIsNoMarker(t: Template, pieces: seq<Piece>, at: Checkout, slug: string)
    requires t.Valid() && t.Safe(pieces)
    ensures !t.markers.On(Fill(pieces, at, slug))
  {
    hide Strip;
    var line := Fill(pieces, at, slug);
    if pieces == [] {
      StripTrimmed("");
    } else {
      var i, j :| 0 <= i < |pieces| && pieces[i].Words? && 0 <= j < |pieces[i].text| &&
                  var c := pieces[i].text[j]; !IsSpace(c) && c !in t.markers.begin && c !in t.markers.end;
      FillKeeps(pieces, at, slug, i, j);
      var k :| 0 <= k < |line| && line[k] == pieces[i].text[j];
      StripKeeps(line, k);
    }
  }

  /** The slug line is trimmed as it stands and is recognised as one. */
  lemma SlugLineOf(t: Template, slug: string)
    requires t.Valid()
    ensures Strip(t.SlugLine(slug)) == t.SlugLine(slug)
    ensures !t.markers.On(t.SlugLine(slug))
    ensures SlugOf(t.SlugLine(slug), t.field) == if Strip(slug) == "" then None else Some(Strip(slug))
  {
    hide Strip;
    var line := t.SlugLine(slug);
    var n := |line|;
    assert line[0] == t.field[0];
    assert line[n - 1] == " -->"[3] == '>';
    StripTrimmed(line);
    assert line[..|t.field|] == t.field;
    assert line[n - 3..] == " -->"[1..] == "-->";
    assert line[|t.field|..n - 3] == " " + slug + " ";
    StripPadded(" ", slug, " ");
  }

  lemma {:induction false} FillAppend(pieces: seq<Piece>, piece: Piece, at: Checkout, slug: string)
    ensures Fill(pieces + [piece], at, slug) == Fill(pieces, at, slug) + FillOne(piece, at, slug)
  {
    hide FillOne;
    if pieces == [] {
      assert pieces + [piece] == [piece] && [piece][1..] == [];
      assert Fill([piece], at, slug) == FillOne(piece, at, slug) + "";
    } else {
      assert (pieces + [piece])[1..] == pieces[1..] + [piece];
      FillAppend(pieces[1..], piece, at, slug);
    }
  }

  /** The last visible character closes no comment. */
  ghost predicate StopsPlainly(s: string) {
    exists j | 0 <= j < |s| :: !IsSpace(s[j]) && s[j] != '>' && forall k | j < k < |s| :: IsSpace(s[k])
  }

  lemma StopsPlainlyThenSpace(s: string, x: string)
    requires StopsPlainly(s) && AllSpace(x)
    ensures StopsPlainly(s + x)
  {
    hide IsSpace;
    var j :| 0 <= j < |s| && !IsSpace(s[j]) && s[j] != '>' && forall k | j < k < |s| :: IsSpace(s[k]);
    var t := s + x;
    assert forall k | 0 <= k < |s| :: t[k] == s[k];
    assert forall k | |s| <= k < |t| :: t[k] == x[k - |s|];
  }

  lemma {:induction false} FillStopsPlainly(pieces: seq<Piece>, at: Checkout, slug: string)
    requires EndsPlainly(pieces) && Blank(slug)
    ensures StopsPlainly(Fill(pieces, at, slug))
    decreases |pieces|
  {
    hide IsSpace, Blank;
    var front, last := pieces[..|pieces| - 1], pieces[|pieces| - 1];
    assert pieces == front + [last];
    FillAppend(front, last, at, slug);
    if last.Slug? {
      FillStopsPlainly(front, at, slug);
      BlankIsAllSpace(slug);
      StopsPlainlyThenSpace(Fill(front, at, slug), slug);
    } else {
      var line := Fill(pieces, at, slug);
      assert line[|line| - 1] == last.text[|last.text| - 1];
    }
  }

  lemma StopsPlainlyIsNoSlug(s: string, field: string)
    requires StopsPlainly(s)
    ensures SlugOf(s, field).None?
  {
    hide IsSpace, Strip;
    var j :| 0 <= j < |s| && !IsSpace(s[j]) && s[j] != '>' && forall k | j < k < |s| :: IsSpace(s[k]);
    var pre, post := StripShape(s);
    StripStops(s, pre, Strip(s), post, j);
    ClosesWithAngle(Strip(s));
  }

  lemma StripStops(s: string, pre: string, core: string, post: string, j: nat)
    requires s == pre + core + post && AllSpace(pre) && AllSpace(post) && Trimmed(core)
    requires j < |s| && !IsSpace(s[j]) && forall k | j < k < |s| :: IsSpace(s[k])
    ensures core != "" && core[|core| - 1] == s[j]
  {
    hide IsSpace;
    assert forall k | 0 <= k < |pre| :: s[k] == pre[k];
    assert forall k | 0 <= k < |core| :: s[|pre| + k] == core[k];
    assert forall k | |pre| + |core| <= k < |s| :: s[k] == post[k - |pre| - |core|];
    assert |pre| <= j < |pre| + |core|;
    assert !IsSpace(s[|pre| + |core| - 1]);
  }

  lemma ClosesWithAngle(s: string)
    ensures EndsWith(s, "-->") ==> s != "" && s[|s| - 1] == '>'
  {
    if EndsWith(s, "-->") {
      assert s[|s| - 1] == s[|s| - 3..][2] == "-->"[2];
    }
  }

  lemma MuteIsNoSlug(t: Template, pieces: seq<Piece>, at: Checkout, slug: string)
    requires t.Mute(pieces) && Blank(slug) && t.field != ""
    ensures SlugOf(Fill(pieces, at, slug), t.field).None?
  {
    hide Strip, Blank;
    if pieces == [] {
      StripTrimmed("");
    } else if EndsPlainly(pieces) {
      FillStopsPlainly(pieces, at, slug);
      StopsPlainlyIsNoSlug(Fill(pieces, at, slug), t.field);
    } else {
      assert pieces == [] + [pieces[0]];
      FillAppend([], pieces[0], at, slug);
      assert Fill(pieces, at, slug) == pieces[0].text;
    }
  }

  // ---------------------------------------------------------------- the section

  lemma RenderFacts(t: Template, at: Checkout, slug: string)
    requires t.Valid()
    ensures t.markers.Delimits(t.Render(at, slug))
  {
    hide Strip, BoundaryFree, Template.Safe, Template.Mute;
    var block := t.Render(at, slug);
    var n := |block|;
    StripTrimmed(t.markers.begin);
    StripTrimmed(t.markers.end);
    SlugLineOf(t, slug);
    forall i | 2 <= i < n - 1 ensures !t.markers.On(block[i]) {
      SafeIsNoMarker(t, t.prose[i - 2], at, slug);
    }
    var inner := block[1..n - 1];
    assert forall i | 0 <= i < |inner| :: inner[i] == block[i + 1];
    assert forall i | 1 <= i < n - 1 :: !t.markers.On(block[i]);
  }

  lemma RenderBoundaryFree(t: Template, at: Checkout, slug: string)
    requires t.Valid()
    ensures BoundaryFree(at.cli) && BoundaryFree(at.asset) && BoundaryFree(slug) ==> AllBoundaryFree(t.Render(at, slug))
    ensures AllBoundaryFree(t.Render(at, slug)) ==> BoundaryFree(slug)
    ensures t.Mentions() && AllBoundaryFree(t.Render(at, slug)) ==> BoundaryFree(at.cli) && BoundaryFree(at.asset)
  {
    hide BoundaryFree, Template.Safe, Template.Mute, Markers.Valid, FillOne, Fill, Template.SlugLine;
    SlugLineBoundaryFree(t, slug);
    var block := t.Render(at, slug);
    assert block[0] == t.markers.begin && block[1] == t.SlugLine(slug) && block[|block| - 1] == t.markers.end;
    assert forall i | 0 <= i < |t.prose| :: block[i + 2] == Fill(t.prose[i], at, slug);
    forall i | 0 <= i < |t.prose|
      ensures BoundaryFree(Fill(t.prose[i], at, slug)) <==>
                forall j | 0 <= j < |t.prose[i]| :: BoundaryFree(FillOne(t.prose[i][j], at, slug))
    {
      FillBoundaryFree(t.prose[i], at, slug);
    }
    assert forall i | 2 <= i < |block| - 1 :: block[i] == Fill(t.prose[i - 2], at, slug);
    hide Template.Render;
    FilledAre(at, slug);
  }

  lemma FilledAre(at: Checkout, slug: string)
    ensures FillOne(Cli, at, slug) == at.cli && FillOne(Asset, at, slug) == at.asset && FillOne(Slug, at, slug) == slug
    ensures forall text: string :: FillOne(Words(text), at, slug) == text
  {
  }

  lemma SlugLineBoundaryFree(t: Template, slug: string)
    requires BoundaryFree(t.field)
    ensures BoundaryFree(t.SlugLine(slug)) <==> BoundaryFree(slug)
  {
    hide BoundaryFree;
    PunctuationIsBoundaryFree();
    JoinBoundaryFree(t.field + " " + slug, " -->");
    JoinBoundaryFree(t.field + " ", slug);
    JoinBoundaryFree(t.field, " ");
  }

  /** Whatever a block records is a trimmed, non-empty slug. */
  lemma {:induction false} RecordedIsTrimmed(block: seq<string>, field: string)
    ensures SlugIn(block, field).Some? ==> SlugIn(block, field).value != "" && Trimmed(SlugIn(block, field).value)
    ensures SlugIn(block, field).Some? && AllBoundaryFree(block) ==> BoundaryFree(SlugIn(block, field).value)
  {
    if block == [] {
    } else {
      RecordedIsTrimmed(block[1..], field);
      hide Strip;
      var s := Strip(block[0]);
      var pre, post := StripShape(block[0]);
      assert block[0] == pre + s + post;
      JoinBoundaryFree(pre + s, post);
      JoinBoundaryFree(pre, s);
      if SlugOf(block[0], field).Some? {
        var mid := s[|field|..|s| - 3];
        assert s == s[..|field|] + mid + s[|s| - 3..];
        JoinBoundaryFree(s[..|field|] + mid, s[|s| - 3..]);
        JoinBoundaryFree(s[..|field|], mid);
        var p, q := StripShape(mid);
        JoinBoundaryFree(p + Strip(mid), q);
        JoinBoundaryFree(p, Strip(mid));
      }
    }
  }

  /** The section, line by line. */
  lemma RenderIs(t: Template, at: Checkout, slug: string)
    ensures var b := t.Render(at, slug);
            && |b| == |t.prose| + 3
            && b[0] == t.markers.begin && b[1] == t.field + " " + slug + " -->" && b[|b| - 1] == t.markers.end
            && forall i | 0 <= i < |t.prose| :: b[i + 2] == Fill(t.prose[i], at, slug)
  {
    hide Fill;
  }

  /** The lines between the markers. */
  function Inner(t: Template, at: Checkout, slug: string): seq<string> {
    t.Render(at, slug)[1..|t.prose| + 2]
  }

  /** No line of the section breaks into one that is a marker. */
  ghost predicate Harmless(t: Template, at: Checkout, slug: string, nl: string) {
    t.markers.Free(Reread(Inner(t, at, slug), nl))
  }

  /** The slug a reader finds in the section. */
  ghost function Kept(t: Template, at: Checkout, slug: string, nl: string): Option<string> {
    SlugIn(Reread(t.Render(at, slug), nl), t.field)
  }

  lemma RereadSection(t: Template, at: Checkout, slug: string, nl: string)
    requires t.Valid() && IsNewline(nl)
    ensures Reread(t.Render(at, slug), nl) == [t.markers.begin] + Reread(Inner(t, at, slug), nl) + [t.markers.end]
  {
    hide Reread, BoundaryFree, Template.Safe, Template.Mute;
    var b := t.Render(at, slug);
    assert b == [t.markers.begin] + Inner(t, at, slug) + [t.markers.end];
    RereadAround([t.markers.begin], Inner(t, at, slug), [t.markers.end], nl);
  }

  lemma PlainIsHarmless(t: Template, at: Checkout, slug: string, nl: string)
    requires t.Valid() && IsNewline(nl) && AllBoundaryFree(t.Render(at, slug))
    ensures Harmless(t, at, slug, nl)
  {
    hide Reread, BoundaryFree, Template.Valid;
    RenderFacts(t, at, slug);
    RereadPlain(Inner(t, at, slug), nl);
  }

  /** A slug that is a line with something visible in it is found again, stripped, whatever
      the paths are. */
  lemma VisibleIsKept(t: Template, at: Checkout, slug: string, nl: string)
    requires t.Valid() && IsNewline(nl) && BoundaryFree(slug) && Strip(slug) != ""
    ensures Kept(t, at, slug, nl) == Some(Strip(slug))
  {
    hide Strip, Reread, BoundaryFree, Template.Safe, Template.Mute;
    var b := t.Render(at, slug);
    var start, more := [t.markers.begin, t.SlugLine(slug)], b[2..];
    assert b == start + more + [];
    SlugLineBoundaryFree(t, slug);
    RereadAround(start, more, [], nl);
    SlugLineOf(t, slug);
    StripTrimmed(t.markers.begin);
    var r := Reread(b, nl);
    assert r[0] == t.markers.begin && r[1..][0] == r[1] == t.SlugLine(slug);
    assert SlugOf(r[0], t.field) == None;
    assert SlugIn(r, t.field) == SlugIn(r[1..], t.field);
    assert SlugOf(r[1..][0], t.field) == Some(Strip(slug));
  }

  lemma {:induction false} NoSlugIn(block: seq<string>, field: string)
    requires forall i | 0 <= i < |block| :: SlugOf(block[i], field).None?
    ensures SlugIn(block, field).None?
  {
    hide SlugOf;
    if block == [] {
    } else {
      NoSlugIn(block[1..], field);
    }
  }

  /** A blank slug is not found again. */
  lemma BlankIsNotKept(t: Template, at: Checkout, slug: string, nl: string)
    requires t.Valid() && IsNewline(nl) && Strip(slug) == ""
    requires BoundaryFree(at.cli) && BoundaryFree(at.asset) && BoundaryFree(slug)
    ensures Kept(t, at, slug, nl).None?
  {
    hide Strip, Reread, BoundaryFree, Template.Safe, Template.Mute, SlugIn;
    var b := t.Render(at, slug);
    RenderBoundaryFree(t, at, slug);
    RereadPlain(b, nl);
    SlugLineOf(t, slug);
    StripTrimmed(t.markers.begin);
    StripTrimmed(t.markers.end);
    forall i | 0 <= i < |b| ensures SlugOf(b[i], t.field).None? {
      if 2 <= i < |b| - 1 {
        MuteIsNoSlug(t, t.prose[i - 2], at, slug);
      }
    }
    NoSlugIn(b, t.field);
  }

  /** A slug comes back as it was given exactly when it is a line, is not empty and has no
      white space around it. */
  lemma SlugSurvivesIff(t: Template, at: Checkout, slug: string, nl: string)
    requires t.Valid() && IsNewline(nl)
    ensures Kept(t, at, slug, nl) == Some(slug) <==> slug != "" && Trimmed(slug) && BoundaryFree(slug)
  {
    hide Strip, Template.Valid, Template.Render, SlugIn, BoundaryFree, Reread;
    RecordedIsTrimmed(Reread(t.Render(at, slug), nl), t.field);
    if slug != "" && Trimmed(slug) && BoundaryFree(slug) {
      StripTrimmed(slug);
      VisibleIsKept(t, at, slug, nl);
    }
  }

  // ---------------------------------------------------------------- composing

  lemma HeadFacts(rest: seq<string>)
    ensures DropBlank(Head(rest)) == DropBlank(rest) && DropBlank(DropBlank(rest)) == DropBlank(rest)
    ensures Head(Head(rest)) == Head(rest) && Head(DropBlank(rest)) == Head(rest)
  {
    hide Strip;
    var body, head := DropBlank(rest), Head(rest);
    StripTrimmed("");
    TrimBlankIs(body, 0, |body|, |body|);
    TrimBlankIs(head, 0, |head|, |body|);
    assert head[..|body|] == body && body[..|body|] == body;
  }

  lemma HeadIsFree(rest: seq<string>, m: Markers)
    requires m.Valid() && m.Free(rest)
    ensures m.Free(Head(rest))
  {
    hide Strip, TrimBlank;
    StripTrimmed("");
  }

  lemma HeadBoundaryFree(rest: seq<string>)
    requires AllBoundaryFree(rest)
    ensures AllBoundaryFree(Head(rest))
  {
    hide BoundaryFree, TrimBlank, Strip;
    EmptyBoundaryFree();
    BoundaryFreeParts(DropBlank(rest), [""]);
  }

  /** Exactly one empty line after the last one with text, or no line at all. */
  predicate Tidy(rest: seq<string>) {
    rest == [] || (|rest| >= 2 && rest[|rest| - 1] == "" && !Blank(rest[|rest| - 2]))
  }

  lemma HeadIsAllIff(rest: seq<string>)
    ensures Head(rest) == rest <==> Tidy(rest)
  {
    hide Strip;
    var body := DropBlank(rest);
    StripTrimmed("");
    assert body != [] ==> !Blank(body[|body| - 1]);
    if Tidy(rest) && rest != [] {
      TrimBlankIs(rest, 0, |rest|, |rest| - 1);
      assert rest == body + [""];
    }
  }

  /** The composed lines, written and read: they can be split exactly when no line of the
      section breaks into a marker, and the own lines are the ones put in front. */
  lemma ComposeSplits(rest: seq<string>, t: Template, at: Checkout, slug: string, nl: string)
    requires t.Valid() && t.markers.Free(rest) && IsNewline(nl)
    ensures SplitBlock(Head(rest) + Reread(t.Render(at, slug), nl), t.markers)
         == if Harmless(t, at, slug, nl) then Split(Head(rest), Reread(t.Render(at, slug), nl)) else Refused
  {
    hide Strip, SplitBlock, Head, Reread, BoundaryFree, Template.Safe, Template.Mute, Template.Render, Markers.Free;
    HeadIsFree(rest, t.markers);
    RereadSection(t, at, slug, nl);
    StripTrimmed(t.markers.begin);
    StripTrimmed(t.markers.end);
    NoneIsFree(t.markers);
    var head, b := Head(rest), Reread(t.Render(at, slug), nl);
    SplitAround(head, t.markers.begin, Reread(Inner(t, at, slug), nl), t.markers.end, [], t.markers);
    assert head + b + [] == head + b && head + [] == head;
  }

  lemma ComposeReread(rest: seq<string>, t: Template, at: Checkout, slug: string, nl: string)
    requires t.Valid() && AllBoundaryFree(rest) && IsNewline(nl)
    ensures var text := WriteText(Compose(rest, t.Render(at, slug)), nl);
            && SplitLines(text) == Head(rest) + Reread(t.Render(at, slug), nl)
            && NewlineOf(text) == nl
  {
    hide SplitLines, NewlineOf, WriteText, Reread, BoundaryFree, Head, Template.Safe, Template.Mute;
    var head, b := Head(rest), t.Render(at, slug);
    HeadBoundaryFree(rest);
    assert head + b + [] == head + b;
    RereadAround(head, b, [], nl);
    assert head + Reread(b, nl) + [] == head + Reread(b, nl);
    RereadWritten(head + b, nl);
    assert (head + b)[0] == if head == [] then t.markers.begin else head[0];
    NewlineOfWritten(head + b, nl);
  }
}
