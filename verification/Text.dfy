/** Line-oriented text as the installers see it: Python's notions of white space,
    `strip` and `splitlines`, and the read/write pair built on them. */
module Text {

  datatype Option<+T> = None | Some(value: T)

  /** The characters `str.isspace` accepts, which are the ones `str.strip` removes. */
  predicate IsSpace(c: char) {
    var n := c as int;
    || 0x09 <= n <= 0x0D
    || 0x1C <= n <= 0x20
    || n == 0x85 || n == 0xA0 || n == 0x1680
    || 0x2000 <= n <= 0x200A
    || n == 0x2028 || n == 0x2029 || n == 0x202F || n == 0x205F || n == 0x3000
  }

  /** The characters `str.splitlines` breaks at; CR LF counts as one break. */
  predicate IsBoundary(c: char) {
    var n := c as int;
    || 0x0A <= n <= 0x0D
    || 0x1C <= n <= 0x1E
    || n == 0x85 || n == 0x2028 || n == 0x2029
  }

  predicate BoundaryFree(s: string) {
    forall i | 0 <= i < |s| :: !IsBoundary(s[i])
  }

  predicate EndsVisibly(line: string) {
    line != "" && !IsBoundary(line[|line| - 1])
  }

  lemma BoundaryIsSpace(c: char)
    requires IsBoundary(c)
    ensures IsSpace(c)
  {
  }

  predicate AllBoundaryFree(lines: seq<string>) {
    forall i | 0 <= i < |lines| :: BoundaryFree(lines[i])
  }

  lemma JoinBoundaryFree(a: string, b: string)
    ensures BoundaryFree(a + b) <==> BoundaryFree(a) && BoundaryFree(b)
  {
    assert forall i | 0 <= i < |b| :: (a + b)[|a| + i] == b[i];
    assert forall i | 0 <= i < |a| :: (a + b)[i] == a[i];
  }

  lemma BoundaryFreeParts(a: seq<string>, b: seq<string>)
    ensures AllBoundaryFree(a + b) <==> AllBoundaryFree(a) && AllBoundaryFree(b)
  {
    hide BoundaryFree;
    assert forall i | 0 <= i < |a| :: (a + b)[i] == a[i];
    assert forall i | 0 <= i < |b| :: (a + b)[|a| + i] == b[i];
  }

  predicate StartsWith(s: string, p: string) {
    p <= s
  }

  predicate EndsWith(s: string, p: string) {
    |p| <= |s| && s[|s| - |p|..] == p
  }

  // ---------------------------------------------------------------- strip

  /** Every character is white space (also true of the empty line). */
  ghost predicate AllSpace(s: string) {
    forall i | 0 <= i < |s| :: IsSpace(s[i])
  }

  /** First index at or after `i` whose character is not white space, or the length. */
  function SpaceEnd(s: string, i: nat): (k: nat)
    requires i <= |s|
    ensures k <= |s|
    decreases |s| - i
  {
    if i < |s| && IsSpace(s[i]) then SpaceEnd(s, i + 1) else i
  }

  /** Last index at or before `i` with nothing but white space from it to `i`. */
  function SpaceStart(s: string, i: nat): (k: nat)
    requires i <= |s|
    ensures k <= |s|
  {
    if i > 0 && IsSpace(s[i - 1]) then SpaceStart(s, i - 1) else i
  }

  function LStrip(s: string): string {
    s[SpaceEnd(s, 0)..]
  }

  function RStrip(s: string): string {
    s[..SpaceStart(s, |s|)]
  }

  function Strip(s: string): string {
    RStrip(LStrip(s))
  }

  /** A line whose `strip()` is falsy. */
  predicate Blank(s: string) {
    Strip(s) == ""
  }

  /** `len(line) - len(line.lstrip())`: white-space characters, tabs counting one. */
  function Indent(s: string): nat {
    |s| - |LStrip(s)|
  }

  predicate Trimmed(s: string) {
    s != "" ==> !IsSpace(s[0]) && !IsSpace(s[|s| - 1])
  }

  function Spaces(n: nat): string {
    seq(n, _ => ' ')
  }

  lemma {:induction false} SpaceEndIs(s: string, i: nat, k: nat)
    requires i <= k <= |s| && (forall j | i <= j < k :: IsSpace(s[j]))
    requires k < |s| ==> !IsSpace(s[k])
    ensures SpaceEnd(s, i) == k
    decreases k - i
  {
    if i < k {
      SpaceEndIs(s, i + 1, k);
    }
  }

  lemma {:induction false} SpaceStartIs(s: string, i: nat, k: nat)
    requires k <= i <= |s| && (forall j | k <= j < i :: IsSpace(s[j]))
    requires k > 0 ==> !IsSpace(s[k - 1])
    ensures SpaceStart(s, i) == k
    decreases i
  {
    if k < i {
      SpaceStartIs(s, i - 1, k);
    }
  }

  lemma {:induction false} SpaceEndRuns(s: string, i: nat)
    requires i <= |s|
    ensures i <= SpaceEnd(s, i) <= |s|
    ensures forall j | i <= j < SpaceEnd(s, i) :: IsSpace(s[j])
    ensures SpaceEnd(s, i) < |s| ==> !IsSpace(s[SpaceEnd(s, i)])
    decreases |s| - i
  {
    if i < |s| && IsSpace(s[i]) {
      SpaceEndRuns(s, i + 1);
    }
  }

  lemma {:induction false} SpaceStartRuns(s: string, i: nat)
    requires i <= |s|
    ensures SpaceStart(s, i) <= i
    ensures forall j | SpaceStart(s, i) <= j < i :: IsSpace(s[j])
    ensures SpaceStart(s, i) > 0 ==> !IsSpace(s[SpaceStart(s, i) - 1])
    decreases i
  {
    if i > 0 && IsSpace(s[i - 1]) {
      SpaceStartRuns(s, i - 1);
    }
  }

  /** `Strip` is characterised by its value: the one trimmed core between two runs of space. */
  lemma StripUnique(pre: string, core: string, post: string)
    requires AllSpace(pre) && AllSpace(post) && Trimmed(core)
    ensures Strip(pre + core + post) == core
    ensures core != "" ==> Indent(pre + core + post) == |pre|
  {
    if core == "" {
      var s := pre + core + post;
      SpaceEndIs(s, 0, |s|);
    } else {
      var s, l := pre + core + post, core + post;
      SpaceEndIs(s, 0, |pre|);
      assert LStrip(s) == l;
      assert l[|core| - 1] == core[|core| - 1];
      SpaceStartIs(l, |l|, |core|);
      assert l[..|core|] == core;
    }
  }

  /** Every string has the shape `StripUnique` speaks of. */
  lemma StripShape(s: string) returns (pre: string, post: string)
    ensures s == pre + Strip(s) + post && AllSpace(pre) && AllSpace(post)
    ensures Trimmed(Strip(s))
    ensures !Blank(s) ==> |pre| == Indent(s)
  {
    SpaceEndRuns(s, 0);
    var l := LStrip(s);
    SpaceStartRuns(l, |l|);
    pre := s[..|s| - |l|];
    post := l[|RStrip(l)|..];
    assert s == pre + l;
    assert l == RStrip(l) + post;
  }

  lemma BlankIsAllSpace(s: string)
    ensures Blank(s) <==> AllSpace(s)
  {
    var pre, post := StripShape(s);
    if AllSpace(s) {
      StripUnique(s, "", "");
      assert s == s + "" + "";
    }
    if Blank(s) {
      assert s == pre + post;
    }
  }

  /** The characters `str.isspace` accepts, one by one. */
  const WHITE: set<char> := {
    '\t', '\n', '\U{000B}', '\U{000C}', '\r', '\U{001C}', '\U{001D}', '\U{001E}', '\U{001F}', ' ',
    '\U{0085}', '\U{00A0}', '\U{1680}',
    '\U{2000}', '\U{2001}', '\U{2002}', '\U{2003}', '\U{2004}', '\U{2005}', '\U{2006}', '\U{2007}',
    '\U{2008}', '\U{2009}', '\U{200A}', '\U{2028}', '\U{2029}', '\U{202F}', '\U{205F}', '\U{3000}'
  }

  lemma IsSpaceIff(c: char)
    ensures IsSpace(c) <==> c in WHITE
  {
  }

  ghost predicate AllWhite(s: string) {
    forall i | 0 <= i < |s| :: s[i] in WHITE
  }

  lemma AllSpaceIff(s: string)
    ensures AllSpace(s) <==> AllWhite(s)
  {
    hide IsSpace, WHITE;
    forall i | 0 <= i < |s| ensures IsSpace(s[i]) <==> s[i] in WHITE {
      IsSpaceIff(s[i]);
    }
  }

  /** A line counts as blank exactly when every character in it is one of those. */
  lemma BlankIff(s: string)
    ensures Blank(s) <==> AllWhite(s)
  {
    hide Blank, AllWhite, AllSpace;
    BlankIsAllSpace(s);
    AllSpaceIff(s);
  }

  /** The text with nothing but white space around it. */
  ghost predicate Padded(line: string, core: string) {
    exists pre, post :: AllWhite(pre) && AllWhite(post) && line == pre + core + post
  }

  /** A line strips to a trimmed text exactly when it is that text between white space. */
  lemma StripsToIff(line: string, core: string)
    requires Trimmed(core)
    ensures Strip(line) == core <==> Padded(line, core)
  {
    hide Strip, IsSpace, WHITE, AllWhite, AllSpace;
    if Strip(line) == core {
      var pre, post := StripShape(line);
      AllSpaceIff(pre);
      AllSpaceIff(post);
      assert AllWhite(pre) && AllWhite(post) && line == pre + core + post;
    }
    forall pre, post | AllWhite(pre) && AllWhite(post) && line == pre + core + post ensures Strip(line) == core {
      AllSpaceIff(pre);
      AllSpaceIff(post);
      StripUnique(pre, core, post);
    }
  }

  /** A visible character survives stripping. */
  lemma StripKeeps(s: string, i: nat)
    requires i < |s| && !IsSpace(s[i])
    ensures s[i] in Strip(s)
  {
    var pre, post := StripShape(s);
    assert forall j | 0 <= j < |pre| :: IsSpace(s[j]);
    assert forall j | |pre| + |Strip(s)| <= j < |s| :: IsSpace(s[j]);
    assert s[i] == Strip(s)[i - |pre|];
  }

  /** Padding around a line is invisible to `strip`; padding before it adds to its indent. */
  lemma StripPadded(pad: string, s: string, post: string)
    requires AllSpace(pad) && AllSpace(post)
    ensures Strip(pad + s + post) == Strip(s)
    ensures !Blank(s) ==> Indent(pad + s + post) == |pad| + Indent(s)
  {
    var p, q := StripShape(s);
    Regroup(pad, p, Strip(s), q, post);
    StripUnique(pad + p, Strip(s), q + post);
  }

  lemma Regroup<T>(a: seq<T>, b: seq<T>, c: seq<T>, d: seq<T>, e: seq<T>)
    ensures a + (b + c + d) + e == (a + b) + c + (d + e)
  {
  }

  lemma IndentPadded(n: nat, s: string)
    ensures Strip(Spaces(n) + s) == Strip(s)
    ensures !Blank(s) ==> Indent(Spaces(n) + s) == n + Indent(s)
  {
    StripPadded(Spaces(n), s, "");
    assert Spaces(n) + s + "" == Spaces(n) + s;
  }

  lemma StripTrimmed(s: string)
    requires Trimmed(s)
    ensures Strip(s) == s
    ensures s != "" ==> Indent(s) == 0
  {
    assert "" + s + "" == s;
    StripUnique("", s, "");
  }

  /** The start of the trailing run of blank lines in `lines[lo..end]`. */
  function TrimBlank(lines: seq<string>, lo: nat, end: nat): (k: nat)
    requires lo <= end <= |lines|
    ensures lo <= k <= end
    ensures forall j | k <= j < end :: Blank(lines[j])
    ensures k > lo ==> !Blank(lines[k - 1])
  {
    if end > lo && Blank(lines[end - 1]) then TrimBlank(lines, lo, end - 1) else end
  }

  lemma TrimBlankIs(lines: seq<string>, lo: nat, end: nat, k: nat)
    requires lo <= k <= end <= |lines|
    requires forall j | k <= j < end :: Blank(lines[j])
    requires k > lo ==> !Blank(lines[k - 1])
    ensures TrimBlank(lines, lo, end) == k
  {
  }
}
