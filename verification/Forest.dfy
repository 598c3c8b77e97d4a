/** The tree an indentation-structured file denotes, with no YAML in it: a line's parent
    is the nearest earlier non-blank line that is indented less. */
module Forest {
  import opened Text

  /** One entry a line: its indent, or `None` for a blank line. */
  type Outline = seq<Option<nat>>

  function OutlineOf(lines: seq<string>): (o: Outline)
    ensures |o| == |lines|
  {
    seq(|lines|, i requires 0 <= i < |lines| =>
      if Blank(lines[i]) then None else Some(Indent(lines[i])))
  }

  ghost predicate Qualifies(o: Outline, j: int, depth: nat)
    requires 0 <= j < |o|
  {
    o[j].Some? && o[j].value < depth
  }

  /** Nearest non-blank line before `i` shallower than `depth`; -1 when there is none. */
  ghost function Above(o: Outline, i: nat, depth: nat): (p: int)
    requires i <= |o|
    ensures -1 <= p < i
    ensures p >= 0 ==> Qualifies(o, p, depth)
    ensures forall j | p < j < i :: !Qualifies(o, j, depth)
  {
    if i == 0 then -1
    else if Qualifies(o, i - 1, depth) then i - 1
    else Above(o, i - 1, depth)
  }

  ghost function Parent(o: Outline, i: nat): (p: int)
    requires i < |o| && o[i].Some?
    ensures -1 <= p < i
    ensures p >= 0 ==> o[p].Some?
  {
    Above(o, i, o[i].value)
  }

  /** The parent is the nearest earlier non-blank line that is indented less. */
  lemma ParentIff(o: Outline, i: nat, p: nat)
    requires i < |o| && o[i].Some?
    ensures Parent(o, i) == p <==>
              && p < i && o[p].Some? && o[p].value < o[i].value
              && forall j | p < j < i :: o[j].Some? ==> o[j].value >= o[i].value
  {
    var depth := o[i].value;
    assert forall j | 0 <= j < i :: Qualifies(o, j, depth) <==> o[j].Some? && o[j].value < depth;
  }

  /** `root` is a proper ancestor of `i`. */
  ghost predicate Descends(o: Outline, i: nat, root: nat)
    requires i < |o| && o[i].Some?
  {
    var p := Parent(o, i);
    p == root || (p >= 0 && Descends(o, p, root))
  }

  /** The lines after `c` up to `end` are exactly the ones deeper than `c`. */
  ghost predicate IsRegion(o: Outline, c: nat, end: nat) {
    && c < end <= |o| && o[c].Some?
    && (forall j | c < j < end :: o[j].Some? ==> o[c].value < o[j].value)
    && (end < |o| ==> o[end].Some? && o[end].value <= o[c].value)
  }

  lemma {:induction false} DescendsForward(o: Outline, i: nat, root: nat)
    requires i < |o| && o[i].Some? && Descends(o, i, root)
    ensures root < i
    decreases i
  {
    var p := Parent(o, i);
    if p != root {
      DescendsForward(o, p, root);
    }
  }

  lemma {:induction false} InsideDescends(o: Outline, c: nat, end: nat, i: nat)
    requires IsRegion(o, c, end) && c < i < end && o[i].Some?
    ensures Descends(o, i, c)
    decreases i
  {
    assert Qualifies(o, c, o[i].value);
    var p := Parent(o, i);
    if p != c {
      InsideDescends(o, c, end, p);
    }
  }

  lemma {:induction false} OutsideDoesNot(o: Outline, c: nat, end: nat, i: nat)
    requires IsRegion(o, c, end) && end <= i < |o| && o[i].Some?
    ensures !Descends(o, i, c)
    decreases i
  {
    var p := Parent(o, i);
    if p >= end {
      OutsideDoesNot(o, c, end, p);
    } else {
      assert !Qualifies(o, end, o[i].value) || i == end;
      assert p <= c;
      if p >= 0 && Descends(o, p, c) {
        DescendsForward(o, p, c);
      }
    }
  }

  lemma {:induction false} DescendsTrans(o: Outline, i: nat, mid: nat, root: nat)
    requires i < |o| && o[i].Some? && Descends(o, i, mid)
    requires mid < |o| && o[mid].Some? && Descends(o, mid, root)
    ensures Descends(o, i, root)
    decreases i
  {
    var p := Parent(o, i);
    if p != mid {
      DescendsTrans(o, p, mid, root);
    }
  }

  /** A region is the set of descendants of the line that opens it. */
  lemma RegionIsDescendants(o: Outline, c: nat, end: nat, i: nat)
    requires IsRegion(o, c, end) && i < |o| && o[i].Some?
    ensures Descends(o, i, c) <==> c < i < end
  {
    if c < i < end {
      InsideDescends(o, c, end, i);
    } else if i >= end {
      OutsideDoesNot(o, c, end, i);
    } else if Descends(o, i, c) {
      DescendsForward(o, i, c);
    }
  }

  // ---------------------------------------------------------------- insertion

  /** Where line `i` (or the absent line -1) ends up when `m` lines are put in at `k`. */
  function Moved(i: int, k: nat, m: nat): int {
    if i < k then i else i + m
  }

  lemma {:induction false} AbovePrefix(o: Outline, o': Outline, i: nat, depth: nat)
    requires i <= |o| && i <= |o'| && o[..i] == o'[..i]
    ensures Above(o, i, depth) == Above(o', i, depth)
  {
    if i > 0 {
      assert o[i - 1] == o[..i][i - 1] == o'[..i][i - 1] == o'[i - 1];
      assert o[..i - 1] == o[..i][..i - 1] == o'[..i][..i - 1] == o'[..i - 1];
      AbovePrefix(o, o', i - 1, depth);
    }
  }

  lemma {:induction false} DescendsPrefix(o: Outline, o': Outline, k: nat, i: nat, root: nat)
    requires i < k <= |o| && k <= |o'| && o[..k] == o'[..k] && o[i].Some?
    ensures o'[i] == o[i] && (Descends(o', i, root) <==> Descends(o, i, root))
    decreases i
  {
    assert o[i] == o[..k][i] == o'[..k][i] == o'[i];
    assert o[..i] == o[..k][..i] == o'[..k][..i] == o'[..i];
    AbovePrefix(o, o', i, o[i].value);
    var p := Parent(o, i);
    if p >= 0 {
      DescendsPrefix(o, o', k, p, root);
    }
  }

  lemma {:induction false} AboveSkips(o: Outline, lo: nat, hi: nat, depth: nat)
    requires lo <= hi <= |o| && forall j | lo <= j < hi :: !Qualifies(o, j, depth)
    ensures Above(o, hi, depth) == Above(o, lo, depth)
    decreases hi
  {
    if lo < hi {
      AboveSkips(o, lo, hi - 1, depth);
    }
  }

  /** Looking up from below the insertion finds what it found before, as long as the
      search either never gets up to the insertion or is too shallow to stop in it. */
  lemma {:induction false} AboveMoved(o: Outline, k: nat, b: Outline, i: nat, depth: nat)
    requires k <= i <= |o|
    requires (forall j | 0 <= j < |b| :: !Qualifies(b, j, depth)) || (exists j | k <= j < i :: Qualifies(o, j, depth))
    ensures Above(o[..k] + b + o[k..], i + |b|, depth) == Moved(Above(o, i, depth), k, |b|)
    decreases i
  {
    var o' := o[..k] + b + o[k..];
    if i == k {
      forall j | k <= j < k + |b| ensures !Qualifies(o', j, depth) {
        assert o'[j] == b[j - k] && !Qualifies(b, j - k, depth);
      }
      AboveSkips(o', k, k + |b|, depth);
      assert o'[..k] == o[..k];
      AbovePrefix(o', o, k, depth);
    } else {
      assert o'[i + |b| - 1] == o[i - 1];
      if !Qualifies(o, i - 1, depth) {
        AboveMoved(o, k, b, i - 1, depth);
      }
    }
  }

  /** Lines deeper than `c`, put in after the last line of `c`'s region and before
      whatever follows it, change no other line's parent. */
  lemma InsertKeepsParents(o: Outline, c: nat, end: nat, k: nat, b: Outline, i: nat)
    requires IsRegion(o, c, end) && c < k <= end
    requires forall j | k <= j < end :: o[j].None?
    requires forall j | 0 <= j < |b| :: b[j].Some? && b[j].value > o[c].value
    requires i < |o| && o[i].Some?
    ensures var o' := o[..k] + b + o[k..];
            && o'[Moved(i, k, |b|)] == o[i]
            && Parent(o', Moved(i, k, |b|)) == Moved(Parent(o, i), k, |b|)
  {
    var o' := o[..k] + b + o[k..];
    if i < k {
      assert o'[..i] == o[..i];
      AbovePrefix(o', o, i, o[i].value);
    } else {
      assert o'[i + |b|] == o[i];
      assert end <= i;
      assert Qualifies(o, end, o[i].value) || o[i].value <= o[c].value;
      AboveMoved(o, k, b, i, o[i].value);
    }
  }

  /** The region of `c` grows by exactly the inserted lines. */
  lemma InsertGrowsRegion(o: Outline, c: nat, end: nat, k: nat, b: Outline)
    requires IsRegion(o, c, end) && c < k <= end
    requires forall j | 0 <= j < |b| :: b[j].Some? && b[j].value > o[c].value
    ensures IsRegion(o[..k] + b + o[k..], c, end + |b|)
  {
    var o' := o[..k] + b + o[k..];
    assert o'[c] == o[c];
    forall j | c < j < end + |b|
      ensures o'[j].Some? ==> o[c].value < o'[j].value
    {
      if j < k {
        assert o'[j] == o[j];
      } else if j < k + |b| {
        assert o'[j] == b[j - k];
      } else {
        assert o'[j] == o[j - |b|];
      }
    }
    assert end < |o| ==> o'[end + |b|] == o[end];
  }

  /** Inserted lines are under `c`. */
  lemma InsertedDescends(o: Outline, c: nat, end: nat, k: nat, b: Outline, j: nat)
    requires IsRegion(o, c, end) && c < k <= end && j < |b|
    requires forall j | 0 <= j < |b| :: b[j].Some? && b[j].value > o[c].value
    ensures var o' := o[..k] + b + o[k..];
            o'[k + j] == b[j] && Descends(o', k + j, c)
  {
    var o' := o[..k] + b + o[k..];
    InsertGrowsRegion(o, c, end, k, b);
    assert o'[k + j] == b[j];
    InsideDescends(o', c, end + |b|, k + j);
  }

  /** A line of the insertion at the insertion's own depth is a child of `c` exactly when
      no line between `c` and the insertion is shallower than it. */
  lemma InsertedChildIff(o: Outline, c: nat, k: nat, b: Outline, at: nat)
    requires c < k <= |o| && at < |b| && o[c].Some? && b[at].Some? && o[c].value < b[at].value
    requires forall j | 0 <= j < at :: b[j] == b[at]
    ensures var o' := o[..k] + b + o[k..];
            && o'[k + at] == b[at]
            && (Parent(o', k + at) == c
                <==> forall j | c < j < k :: o[j].Some? ==> o[j].value >= b[at].value)
  {
    var o' := o[..k] + b + o[k..];
    var depth := b[at].value;
    assert forall j | 0 <= j < k :: o'[j] == o[j];
    assert forall j | k <= j <= k + at :: o'[j] == b[j - k];
    assert Qualifies(o', c, depth);
    assert Parent(o', k + at) >= c;
    assert forall j | c < j < k :: Qualifies(o', j, depth) <==> o[j].Some? && o[j].value < depth;
  }

  /** A deeper run of lines inside the insertion hangs from the line before the run. */
  lemma InsertedGrandchild(o: Outline, k: nat, b: Outline, at: nat, j: nat)
    requires k <= |o| && at < j < |b| && b[at].Some? && b[j].Some? && b[at].value < b[j].value
    requires forall i | at < i < j :: b[i] == b[j]
    ensures var o' := o[..k] + b + o[k..];
            o'[k + j] == b[j] && Parent(o', k + j) == k + at
  {
    var o' := o[..k] + b + o[k..];
    assert forall i | k <= i < k + |b| :: o'[i] == b[i - k];
    assert Qualifies(o', k + at, b[j].value);
    assert forall i | k + at < i < k + j :: !Qualifies(o', i, b[j].value);
  }
}
