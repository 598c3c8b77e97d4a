/** Lines of text: Python's `splitlines`, the text `write_lines` makes of lines, and what
    reading that text back finds (scripts/managed_block.py, `read_lines` and `write_lines`). */
module Lines {
  import opened Text

  /** Index of the first line boundary at or after `i`, or the length of the text. */
  function BreakFrom(t: string, i: nat): (n: nat)
    requires i <= |t|
    ensures i <= n <= |t| && forall j | i <= j < n :: !IsBoundary(t[j])
    ensures n < |t| ==> IsBoundary(t[n])
    decreases |t| - i
  {
    if i < |t| && !IsBoundary(t[i]) then BreakFrom(t, i + 1) else i
  }

  function LineEnd(t: string): (n: nat)
    ensures n <= |t| && forall j | 0 <= j < n :: !IsBoundary(t[j])
    ensures n < |t| ==> IsBoundary(t[n])
  {
    BreakFrom(t, 0)
  }

  function BoundaryLength(t: string, n: nat): (m: nat)
    requires n < |t|
    ensures 1 <= m && n + m <= |t|
  {
    if t[n] == '\r' && n + 1 < |t| && t[n + 1] == '\n' then 2 else 1
  }

  /** `str.splitlines()`. */
  function SplitLines(t: string): (lines: seq<string>)
    ensures AllBoundaryFree(lines)
    ensures t != "" ==> lines != []
    decreases |t|
  {
    if t == "" then []
    else
      var n := LineEnd(t);
      if n == |t| then [t]
      else [t[..n]] + SplitLines(t[n + BoundaryLength(t, n)..])
  }

  /** Index of the first line feed at or after `i`, or the length of the text. */
  function FeedFrom(t: string, i: nat): (n: nat)
    requires i <= |t|
    ensures i <= n <= |t| && forall j | i <= j < n :: t[j] != '\n'
    ensures n < |t| ==> t[n] == '\n'
    decreases |t| - i
  {
    if i < |t| && t[i] != '\n' then FeedFrom(t, i + 1) else i
  }

  predicate IsNewline(nl: string) {
    nl == "\n" || nl == "\r\n"
  }

  /** The line ending `read_lines` reports. */
  function NewlineOf(t: string): (nl: string)
    ensures IsNewline(nl)
  {
    var n := FeedFrom(t, 0);
    if n < |t| && n > 0 && t[n - 1] == '\r' then "\r\n" else "\n"
  }

  /** `separator.join(lines)`. */
  function Join(lines: seq<string>, sep: string): string {
    if lines == [] then ""
    else if |lines| == 1 then lines[0]
    else lines[0] + sep + Join(lines[1..], sep)
  }

  /** The text `write_lines` puts in the file. */
  function WriteText(lines: seq<string>, nl: string): string {
    Join(lines, nl) + nl
  }

  /** A line ends at its first boundary. */
  lemma LineEndIs(t: string, n: nat)
    requires n <= |t| && (forall j | 0 <= j < n :: !IsBoundary(t[j])) && (n < |t| ==> IsBoundary(t[n]))
    ensures LineEnd(t) == n
  {
    hide IsBoundary, BreakFrom;
    assert n <= LineEnd(t) && LineEnd(t) <= n;
  }

  lemma SplitStep(t: string)
    ensures t == "" ==> SplitLines(t) == []
    ensures t != "" && LineEnd(t) == |t| ==> SplitLines(t) == [t]
    ensures LineEnd(t) < |t| ==>
              SplitLines(t) == [t[..LineEnd(t)]] + SplitLines(t[LineEnd(t) + BoundaryLength(t, LineEnd(t))..])
  {
    hide LineEnd, BoundaryLength, IsBoundary;
  }

  lemma CutAt(t: string, n: nat)
    requires n < |t| && (forall j | 0 <= j < n :: !IsBoundary(t[j])) && IsBoundary(t[n])
    ensures SplitLines(t) == [t[..n]] + SplitLines(t[n + BoundaryLength(t, n)..])
  {
    hide LineEnd, IsBoundary, BoundaryLength, SplitLines;
    LineEndIs(t, n);
    SplitStep(t);
  }

  lemma NoCut(t: string)
    requires t != "" && BoundaryFree(t)
    ensures SplitLines(t) == [t]
  {
    LineEndIs(t, |t|);
    hide LineEnd, IsBoundary, SplitLines;
    SplitStep(t);
  }

  lemma SplitFirst(line: string, nl: string, rest: string)
    requires BoundaryFree(line) && IsNewline(nl)
    ensures SplitLines(line + nl + rest) == [line] + SplitLines(rest)
  {
    hide SplitLines, IsBoundary;
    var t, n := line + nl + rest, |line|;
    assert forall j | 0 <= j < n :: t[j] == line[j];
    assert t[n] == nl[0];
    NewlineIsBoundary(nl);
    FirstBreak(line, nl, rest);
    CutAt(t, n);
    assert t[..n] == line && t[n + |nl|..] == rest;
  }

  lemma NewlineIsBoundary(nl: string)
    requires IsNewline(nl)
    ensures IsBoundary(nl[0]) && nl[|nl| - 1] == '\n'
  {
  }

  lemma FirstBreak(line: string, nl: string, rest: string)
    requires IsNewline(nl)
    ensures BoundaryLength(line + nl + rest, |line|) == |nl|
  {
    var t, n := line + nl + rest, |line|;
    assert t[n] == nl[0];
    assert |nl| == 2 ==> t[n + 1] == nl[1];
  }

  /** Text after a newline splits on its own. */
  lemma {:induction false} SplitAtNewline(x: string, nl: string, b: string)
    requires IsNewline(nl)
    ensures SplitLines(x + nl + b) == SplitLines(x + nl) + SplitLines(b)
    decreases |x|
  {
    hide SplitLines, IsBoundary;
    var n := LineEnd(x);
    hide LineEnd;
    if n == |x| {
      SplitFirst(x, nl, b);
      SplitFirst(x, nl, "");
      assert x + nl + "" == x + nl && SplitLines("") == [] by { NoLines(); }
    } else {
      SplitBeyond(x, nl, b, n);
      var m := n + BoundaryLength(x + nl, n);
      if m <= |x| {
        SplitAtNewline(x[m..], nl, b);
        assert (x + nl)[m..] == x[m..] + nl;
        assert (x + nl + b)[m..] == x[m..] + nl + b;
      } else {
        BreakEndsText(x, nl, n);
        assert (x + nl)[m..] == "" && (x + nl + b)[m..] == b;
        NoLines();
      }
    }
  }

  lemma NoLines()
    ensures SplitLines("") == []
  {
  }

  lemma SplitBeyond(x: string, nl: string, b: string, n: nat)
    requires IsNewline(nl) && n < |x| && (forall j | 0 <= j < n :: !IsBoundary(x[j])) && IsBoundary(x[n])
    ensures var s, t := x + nl, x + nl + b;
            var m := n + BoundaryLength(s, n);
            && SplitLines(s) == [x[..n]] + SplitLines(s[m..])
            && SplitLines(t) == [x[..n]] + SplitLines(t[m..])
  {
    hide SplitLines, IsBoundary;
    var s, t := x + nl, x + nl + b;
    assert forall j | 0 <= j < |s| :: t[j] == s[j];
    assert forall j | 0 <= j <= n :: s[j] == x[j];
    CutAt(s, n);
    CutAt(t, n);
    assert s[..n] == x[..n] && t[..n] == x[..n];
    assert BoundaryLength(t, n) == BoundaryLength(s, n);
  }

  lemma BreakEndsText(x: string, nl: string, n: nat)
    requires IsNewline(nl) && n < |x| && n + BoundaryLength(x + nl, n) > |x|
    ensures n + BoundaryLength(x + nl, n) == |x + nl|
  {
    assert (x + nl)[|x|] == nl[0];
  }

  // ---------------------------------------------------------------- what a reader finds

  /** The lines a reader finds for written ones: each breaks at its own boundaries. */
  function Reread(lines: seq<string>, nl: string): (r: seq<string>)
    ensures AllBoundaryFree(r)
  {
    if lines == [] then [] else SplitLines(lines[0] + nl) + Reread(lines[1..], nl)
  }

  lemma WriteTextStep(lines: seq<string>, nl: string)
    requires lines != []
    ensures |lines| == 1 ==> WriteText(lines, nl) == lines[0] + nl
    ensures |lines| > 1 ==> WriteText(lines, nl) == lines[0] + nl + WriteText(lines[1..], nl)
  {
    if |lines| > 1 {
      assert lines[0] + nl + Join(lines[1..], nl) + nl == lines[0] + nl + (Join(lines[1..], nl) + nl);
    }
  }

  lemma {:induction false} WriteTextJoin(a: seq<string>, b: seq<string>, nl: string)
    requires a != [] && b != []
    ensures WriteText(a + b, nl) == WriteText(a, nl) + WriteText(b, nl)
  {
    hide WriteText;
    WriteTextStep(a, nl);
    WriteTextStep(a + b, nl);
    assert (a + b)[1..] == a[1..] + b;
    if |a| == 1 {
      assert a[1..] + b == b;
    } else {
      WriteTextJoin(a[1..], b, nl);
    }
  }

  /** Reading written lines finds each of them, broken at its own boundaries. */
  lemma {:induction false} RereadWritten(lines: seq<string>, nl: string)
    requires lines != [] && IsNewline(nl)
    ensures SplitLines(WriteText(lines, nl)) == Reread(lines, nl)
  {
    hide SplitLines, WriteText;
    WriteTextStep(lines, nl);
    if |lines| == 1 {
      assert Reread(lines[1..], nl) == [];
    } else {
      RereadWritten(lines[1..], nl);
      SplitAtNewline(lines[0], nl, WriteText(lines[1..], nl));
    }
  }

  lemma {:induction false} RereadPlain(lines: seq<string>, nl: string)
    requires AllBoundaryFree(lines) && IsNewline(nl)
    ensures Reread(lines, nl) == lines
  {
    hide SplitLines, BoundaryFree;
    if lines == [] {
    } else {
      RereadPlain(lines[1..], nl);
      SplitFirst(lines[0], nl, "");
      NoLines();
      assert lines[0] + nl + "" == lines[0] + nl;
      assert lines == [lines[0]] + lines[1..];
    }
  }

  /** Only boundary-free lines are read back as they are. */
  lemma RereadIff(lines: seq<string>, nl: string)
    requires IsNewline(nl)
    ensures Reread(lines, nl) == lines <==> AllBoundaryFree(lines)
  {
    hide BoundaryFree;
    if AllBoundaryFree(lines) {
      RereadPlain(lines, nl);
    }
  }

  lemma {:induction false} RereadJoin(a: seq<string>, b: seq<string>, nl: string)
    ensures Reread(a + b, nl) == Reread(a, nl) + Reread(b, nl)
  {
    hide SplitLines, AllBoundaryFree;
    if a == [] {
      assert a + b == b;
    } else {
      RereadJoin(a[1..], b, nl);
      assert (a + b)[1..] == a[1..] + b;
    }
  }

  /** What stands around a part that breaks is read back as it is. */
  lemma RereadAround(a: seq<string>, b: seq<string>, c: seq<string>, nl: string)
    requires AllBoundaryFree(a) && AllBoundaryFree(c) && IsNewline(nl)
    ensures Reread(a + b + c, nl) == a + Reread(b, nl) + c
  {
    hide Reread, BoundaryFree;
    RereadJoin(a + b, c, nl);
    RereadJoin(a, b, nl);
    RereadPlain(a, nl);
    RereadPlain(c, nl);
  }

  /** Spaces before a text stay in front of its first line. */
  lemma SplitPadded(n: nat, s: string)
    requires s != ""
    ensures SplitLines(s) != [] && SplitLines(Spaces(n) + s) == [Spaces(n) + SplitLines(s)[0]] + SplitLines(s)[1..]
  {
    hide SplitLines;
    var t, k := Spaces(n) + s, LineEnd(s);
    hide LineEnd;
    SpacesDoNotBreak(n);
    assert forall j | 0 <= j < n :: t[j] == Spaces(n)[j];
    assert forall j | n <= j < n + |s| :: t[j] == s[j - n];
    hide IsBoundary, Spaces;
    if k == |s| {
      NoCut(s);
      NoCut(t);
    } else {
      CutAt(s, k);
      CutAt(t, n + k);
      PaddedBreak(n, s, k);
    }
  }

  lemma SpacesDoNotBreak(n: nat)
    ensures |Spaces(n)| == n && forall j | 0 <= j < n :: !IsBoundary(Spaces(n)[j])
  {
  }

  lemma PaddedBreak(n: nat, s: string, k: nat)
    requires k < |s|
    ensures |Spaces(n)| == n
    ensures var t, m := Spaces(n) + s, k + BoundaryLength(s, k);
            && BoundaryLength(t, n + k) == BoundaryLength(s, k)
            && t[..n + k] == Spaces(n) + s[..k] && t[n + m..] == s[m..]
  {
    SpacesDoNotBreak(n);
    hide Spaces;
    var t := Spaces(n) + s;
    assert forall j | n <= j < n + |s| :: t[j] == s[j - n];
  }

  /** A text that does not end at a boundary splits the same with a newline after it. */
  lemma {:induction false} SplitEnded(s: string, nl: string)
    requires s != "" && !IsBoundary(s[|s| - 1]) && IsNewline(nl)
    ensures SplitLines(s + nl) == SplitLines(s)
    decreases |s|
  {
    hide SplitLines;
    var n := LineEnd(s);
    hide LineEnd, IsBoundary;
    if n == |s| {
      NoCut(s);
      SplitFirst(s, nl, "");
      assert s + nl + "" == s + nl;
      NoLines();
    } else {
      var m := n + BoundaryLength(s, n);
      SplitBeyond(s, nl, "", n);
      assert s + nl + "" == s + nl;
      CutAt(s, n);
      StopsBefore(s, nl, n);
      assert s[m..][|s[m..]| - 1] == s[|s| - 1];
      SplitEnded(s[m..], nl);
      assert (s + nl)[m..] == s[m..] + nl;
    }
  }

  lemma StopsBefore(s: string, nl: string, n: nat)
    requires n < |s| && IsBoundary(s[n]) && !IsBoundary(s[|s| - 1])
    ensures n + BoundaryLength(s, n) < |s| && BoundaryLength(s + nl, n) == BoundaryLength(s, n)
  {
    assert forall j | 0 <= j < |s| :: (s + nl)[j] == s[j];
  }

  /** Such a text is one line exactly when it has no boundary. */
  lemma OneLineIff(s: string)
    requires s != "" && !IsBoundary(s[|s| - 1])
    ensures |SplitLines(s)| >= 1
    ensures |SplitLines(s)| == 1 <==> BoundaryFree(s)
  {
    hide SplitLines;
    var n := LineEnd(s);
    hide LineEnd;
    if n == |s| {
      NoCut(s);
    } else {
      StopsBefore(s, "", n);
      CutAt(s, n);
      hide IsBoundary;
      assert SplitLines(s[n + BoundaryLength(s, n)..]) != [];
    }
  }

  lemma VisibleEnd(line: string)
    requires EndsVisibly(line)
    ensures line != "" && !IsBoundary(line[|line| - 1])
  {
  }

  /** Breaking makes more lines, so as many as there were means that none broke. */
  lemma {:induction false} RereadLength(lines: seq<string>, nl: string)
    requires IsNewline(nl) && forall i | 0 <= i < |lines| :: EndsVisibly(lines[i])
    ensures |Reread(lines, nl)| >= |lines|
    ensures |Reread(lines, nl)| == |lines| ==> AllBoundaryFree(lines)
  {
    hide SplitLines, IsBoundary, BoundaryFree, EndsVisibly;
    if lines == [] {
    } else {
      VisibleEnd(lines[0]);
      RereadLength(lines[1..], nl);
      SplitEnded(lines[0], nl);
      OneLineIff(lines[0]);
      assert forall i | 0 < i < |lines| :: lines[i] == lines[1..][i - 1];
    }
  }

  /** Reading what was written returns the same lines exactly when there are some and none
      of them has a boundary in it. */
  lemma WrittenSurvivesIff(lines: seq<string>, nl: string)
    requires IsNewline(nl)
    ensures SplitLines(WriteText(lines, nl)) == lines <==> lines != [] && AllBoundaryFree(lines)
  {
    hide SplitLines, Reread, BoundaryFree;
    if lines == [] {
      assert WriteText([], nl) == nl;
      assert SplitLines(nl) != [];
    } else {
      RereadWritten(lines, nl);
      RereadIff(lines, nl);
    }
  }

  /** Reading what was written returns the same lines and the same ending. */
  lemma ReadWritten(lines: seq<string>, nl: string)
    requires lines != [] && AllBoundaryFree(lines) && IsNewline(nl)
    ensures SplitLines(WriteText(lines, nl)) == lines
    ensures NewlineOf(WriteText(lines, nl)) == nl
  {
    hide SplitLines, NewlineOf, BoundaryFree;
    WrittenSurvivesIff(lines, nl);
    NewlineOfWritten(lines, nl);
  }

  /** The first line fixes the ending that is found, whatever the others have in them. */
  lemma NewlineOfWritten(lines: seq<string>, nl: string)
    requires lines != [] && BoundaryFree(lines[0]) && IsNewline(nl)
    ensures NewlineOf(WriteText(lines, nl)) == nl
  {
    hide NewlineOf, WriteText, BoundaryFree;
    WriteTextStep(lines, nl);
    var rest := if |lines| == 1 then "" else WriteText(lines[1..], nl);
    assert lines[0] + nl + "" == lines[0] + nl;
    NewlineOfFirst(lines[0], nl, rest);
  }

  lemma NewlineOfFirst(line: string, nl: string, rest: string)
    requires BoundaryFree(line) && IsNewline(nl)
    ensures NewlineOf(line + nl + rest) == nl
  {
    var t, n := line + nl + rest, |line|;
    assert forall i | 0 <= i < n :: t[i] == line[i] && !IsBoundary(line[i]);
    assert forall i | 0 <= i < n :: t[i] != '\n' && t[i] != '\r';
    hide IsBoundary;
    assert t[n] == nl[0];
    assert |nl| == 2 ==> t[n + 1] == nl[1];
    assert FeedFrom(t, 0) == n + |nl| - 1;
  }

  // ---------------------------------------------------------------- endings

  /** The characters `str.splitlines` breaks at, one by one. */
  const BREAKS: set<char> :=
    {'\n', '\r', '\U{000B}', '\U{000C}', '\U{001C}', '\U{001D}', '\U{001E}', '\U{0085}', '\U{2028}', '\U{2029}'}

  lemma IsBoundaryIff(c: char)
    ensures IsBoundary(c) <==> c in BREAKS
  {
  }

  /** A text is one line exactly when there is some of it and none of these is in it. */
  lemma IsOneLineIff(t: string)
    ensures SplitLines(t) == [t] <==> t != "" && forall i | 0 <= i < |t| :: t[i] !in BREAKS
  {
    hide SplitLines, IsBoundary, BREAKS;
    forall i | 0 <= i < |t| ensures IsBoundary(t[i]) <==> t[i] in BREAKS {
      IsBoundaryIff(t[i]);
    }
    NoLines();
    if SplitLines(t) == [t] {
      assert BoundaryFree([t][0]);
    } else if t != "" && BoundaryFree(t) {
      NoCut(t);
    }
  }

  predicate IsTerminator(e: string) {
    e == "\r\n" || (|e| == 1 && e[0] in BREAKS)
  }

  /** The lines, each followed by its own ending. */
  function Interleave(lines: seq<string>, ends: seq<string>): string
    requires |lines| == |ends|
  {
    if lines == [] then "" else lines[0] + ends[0] + Interleave(lines[1..], ends[1..])
  }

  /** One ending for each line; only the last may be missing, and only after a line with text. */
  ghost predicate AreEndings(lines: seq<string>, ends: seq<string>) {
    && |lines| == |ends|
    && forall i | 0 <= i < |ends| ::
         IsTerminator(ends[i]) || (i == |ends| - 1 && ends[i] == "" && lines[i] != "")
  }

  /** What `splitlines` breaks the text at, line by line. */
  function Endings(t: string): (ends: seq<string>)
    ensures |ends| == |SplitLines(t)|
    decreases |t|
  {
    SplitStep(t);
    hide SplitLines, LineEnd, BoundaryLength, IsBoundary;
    if t == "" then []
    else
      var n := LineEnd(t);
      if n == |t| then [""]
      else
        var m := n + BoundaryLength(t, n);
        [t[n..m]] + Endings(t[m..])
  }

  /** A text whose first line ends at a boundary: that line, its ending, and the rest. */
  lemma FirstLine(t: string) returns (line: string, end: string, rest: string)
    requires LineEnd(t) < |t|
    ensures t == line + end + rest && IsTerminator(end) && |rest| < |t|
    ensures line == t[..LineEnd(t)] && end == t[LineEnd(t)..LineEnd(t) + BoundaryLength(t, LineEnd(t))]
    ensures SplitLines(t) == [line] + SplitLines(rest) && Endings(t) == [end] + Endings(rest)
  {
    hide IsBoundary;
    var n := LineEnd(t);
    hide LineEnd;
    var m := n + BoundaryLength(t, n);
    line, end, rest := t[..n], t[n..m], t[m..];
    hide BREAKS;
    IsBoundaryIff(t[n]);
    assert m == n + 2 ==> end == "\r\n";
    assert m == n + 1 ==> end[0] == t[n];
  }

  lemma LastLine(t: string)
    requires t != "" && LineEnd(t) == |t|
    ensures SplitLines(t) == [t] && Endings(t) == [""]
  {
    hide LineEnd, IsBoundary, BoundaryLength, SplitLines;
    SplitStep(t);
  }

  lemma InterleaveOne(line: string, end: string)
    ensures Interleave([line], [end]) == line + end
  {
    assert [line][1..] == [] && [end][1..] == [];
    assert line + end + "" == line + end;
  }

  lemma InterleaveCons(line: string, lines: seq<string>, end: string, ends: seq<string>)
    requires |lines| == |ends|
    ensures Interleave([line] + lines, [end] + ends) == line + end + Interleave(lines, ends)
    ensures IsTerminator(end) && AreEndings(lines, ends) ==> AreEndings([line] + lines, [end] + ends)
  {
    hide IsTerminator;
    var l, e := [line] + lines, [end] + ends;
    assert l[1..] == lines && e[1..] == ends;
    assert forall i | 0 < i < |e| :: e[i] == ends[i - 1] && l[i] == lines[i - 1];
  }

  /** `splitlines` loses the line endings and nothing else. */
  lemma {:induction false} SplitLosesOnlyEndings(t: string)
    ensures AreEndings(SplitLines(t), Endings(t)) && t == Interleave(SplitLines(t), Endings(t))
    decreases |t|
  {
    hide LineEnd, BoundaryLength, IsTerminator;
    if t == "" {
    } else if LineEnd(t) == |t| {
      LastLine(t);
      InterleaveOne(t, "");
      assert t + "" == t;
    } else {
      var line, end, rest := FirstLine(t);
      hide SplitLines, Endings, Interleave, AreEndings;
      SplitLosesOnlyEndings(rest);
      InterleaveCons(line, SplitLines(rest), end, Endings(rest));
    }
  }

  function Repeat(nl: string, n: nat): (ends: seq<string>)
    ensures |ends| == n && forall i | 0 <= i < n :: ends[i] == nl
  {
    seq(n, _ => nl)
  }

  lemma {:induction false} WriteTextInterleaves(lines: seq<string>, nl: string)
    requires lines != []
    ensures WriteText(lines, nl) == Interleave(lines, Repeat(nl, |lines|))
  {
    hide WriteText;
    WriteTextStep(lines, nl);
    var ends := Repeat(nl, |lines|);
    assert ends[1..] == Repeat(nl, |lines| - 1);
    if |lines| == 1 {
      assert Interleave(lines[1..], ends[1..]) == "";
    } else {
      WriteTextInterleaves(lines[1..], nl);
    }
  }

  /** Writing back what was read changes the line endings and the final newline and nothing
      else, nothing a reader can see, and twice gives the same bytes as once. */
  lemma WriteAfterRead(t: string)
    requires t != ""
    ensures var lines, nl := SplitLines(t), NewlineOf(t);
            var t' := WriteText(lines, nl);
            && AreEndings(lines, Endings(t)) && t == Interleave(lines, Endings(t))
            && t' == Interleave(lines, Repeat(nl, |lines|))
            && SplitLines(t') == lines && NewlineOf(t') == nl
            && WriteText(SplitLines(t'), NewlineOf(t')) == t'
  {
    hide SplitLines, Endings, Interleave, AreEndings, WriteText, NewlineOf, BoundaryFree;
    SplitLosesOnlyEndings(t);
    WriteTextInterleaves(SplitLines(t), NewlineOf(t));
    ReadWritten(SplitLines(t), NewlineOf(t));
  }

  ghost predicate AllAre(ends: seq<string>, nl: string) {
    forall i | 0 <= i < |ends| :: ends[i] == nl
  }

  /** A break that is followed by what follows a newline is that newline. */
  lemma EndingForced(line: string, end: string, rest: string, nl: string, x: string, t: string)
    requires IsNewline(nl) && t == line + end + rest && end + rest == nl + x
    requires LineEnd(t) == |line| < |t| && |end| == BoundaryLength(t, |line|)
    ensures end == nl
  {
    hide LineEnd;
    var tail := end + rest;
    assert t == line + tail && |tail| >= |nl|;
    assert t[|line|] == tail[0] == nl[0];
    assert |nl| == 2 ==> t[|line| + 1] == tail[1] == nl[1];
    assert |end| == |nl|;
    assert end == tail[..|end|] && nl == tail[..|nl|];
  }

  lemma SameLineCancels(line: string, a: string, b: string)
    requires line + a == line + b
    ensures a == b
  {
    assert a == (line + a)[|line|..] && b == (line + b)[|line|..];
  }

  /** Giving every line the same ending changes nothing exactly when every one had it. */
  lemma {:induction false} SameEndingIff(t: string, nl: string)
    requires IsNewline(nl)
    ensures Interleave(SplitLines(t), Repeat(nl, |SplitLines(t)|)) == t <==> AllAre(Endings(t), nl)
    decreases |t|
  {
    hide LineEnd, BoundaryLength;
    if t == "" {
    } else if LineEnd(t) == |t| {
      LastLine(t);
      InterleaveOne(t, nl);
      assert Repeat(nl, 1) == [nl];
      assert Endings(t)[0] == "";
    } else {
      var line, end, rest := FirstLine(t);
      hide *;
      var more := Repeat(nl, |SplitLines(rest)|);
      SameEndingIff(rest, nl);
      assert Repeat(nl, |SplitLines(t)|) == [nl] + more;
      InterleaveCons(line, SplitLines(rest), nl, more);
      AllAreCons(end, Endings(rest), nl);
      SameStart(line, end, rest, nl, Interleave(SplitLines(rest), more), t);
    }
  }

  lemma SameStart(line: string, end: string, rest: string, nl: string, x: string, t: string)
    requires IsNewline(nl) && t == line + end + rest
    requires LineEnd(t) == |line| < |t| && |end| == BoundaryLength(t, |line|)
    ensures line + nl + x == t <==> end == nl && x == rest
  {
    hide LineEnd, BoundaryLength, IsNewline;
    assert line + nl + x == line + (nl + x) && line + end + rest == line + (end + rest);
    if line + nl + x == t {
      SameLineCancels(line, nl + x, end + rest);
      EndingForced(line, end, rest, nl, x, t);
      SameLineCancels(nl, x, rest);
    }
  }

  lemma AllAreCons(end: string, ends: seq<string>, nl: string)
    ensures AllAre([end] + ends, nl) <==> end == nl && AllAre(ends, nl)
  {
    var all := [end] + ends;
    assert all[0] == end && forall i | 0 <= i < |ends| :: all[i + 1] == ends[i];
    assert forall i | 0 < i < |all| :: all[i] == ends[i - 1];
  }

  /** A file keeps its bytes when it is read and written back exactly when it has a line and
      every line, the last included, ends as its first line feed says. */
  lemma BytesKeptIff(t: string)
    ensures WriteText(SplitLines(t), NewlineOf(t)) == t <==> t != "" && AllAre(Endings(t), NewlineOf(t))
  {
    hide SplitLines, Endings, Interleave, WriteText, NewlineOf, BoundaryFree, AllAre;
    if t == "" {
      WrittenIsNotEmpty(SplitLines(t), NewlineOf(t));
    } else {
      WriteTextInterleaves(SplitLines(t), NewlineOf(t));
      SameEndingIff(t, NewlineOf(t));
    }
  }

  /** The ending found is CR LF exactly when the first line feed has a CR before it. */
  lemma NewlineIs(t: string)
    ensures NewlineOf(t) == "\r\n" <==> exists a, b :: t == a + "\r\n" + b && '\n' !in a
    ensures NewlineOf(t) == "\r\n" || NewlineOf(t) == "\n"
  {
    var n := FeedFrom(t, 0);
    if NewlineOf(t) == "\r\n" {
      var a, b := t[..n - 1], t[n + 1..];
      assert t == a + "\r\n" + b && '\n' !in a;
    }
    forall a, b | t == a + "\r\n" + b && '\n' !in a ensures NewlineOf(t) == "\r\n" {
      assert forall i | 0 <= i < |a| :: t[i] == a[i];
      assert t[|a|] == '\r' && t[|a| + 1] == '\n';
      assert n == |a| + 1;
    }
  }

  lemma WrittenIsNotEmpty(lines: seq<string>, nl: string)
    requires IsNewline(nl)
    ensures WriteText(lines, nl) != ""
  {
  }
}
