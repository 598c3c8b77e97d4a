/** Finding a marker-delimited block in a file another repository owns
    (scripts/managed_block.py, `split_block`). */
module ManagedBlock {
  import opened Lines
  import opened Text

  /** `split_block`'s result; `Refused` is its `RefusedError`. */
  datatype Split = Split(rest: seq<string>, block: seq<string>) | Refused

  /** The marker pair an installer delimits its block with. */
  datatype Markers = Markers(begin: string, end: string) {
    predicate Valid() {
      begin != end && begin != "" && end != "" && Trimmed(begin) && Trimmed(end)
    }

    predicate On(line: string) {
      Strip(line) == begin || Strip(line) == end
    }

    /** No line is a marker. */
    ghost predicate Free(lines: seq<string>) {
      forall i | 0 <= i < |lines| :: !On(lines[i])
    }

    /** One begin marker first, one end marker last, none between. */
    ghost predicate Delimits(block: seq<string>) {
      && |block| >= 2
      && Strip(block[0]) == begin
      && Strip(block[|block| - 1]) == end
      && Free(block[1..|block| - 1])
    }

    /** The one shape of file, besides a marker-free one, whose block has a known boundary. */
    ghost predicate Decomposes(lines: seq<string>, a: seq<string>, block: seq<string>, c: seq<string>) {
      lines == a + block + c && Free(a) && Delimits(block) && Free(c)
    }
  }

  /** Indices of the lines that are exactly this marker once stripped. */
  function Indices(lines: seq<string>, marker: string): (r: seq<nat>)
    ensures forall i: nat :: i in r <==> i < |lines| && Strip(lines[i]) == marker
    ensures forall i, j | 0 <= i < j < |r| :: r[i] < r[j]
  {
    if lines == [] then []
    else
      var n := |lines| - 1;
      var r := Indices(lines[..n], marker);
      assert forall k | 0 <= k < |r| :: r[k] in r;
      if Strip(lines[n]) == marker then r + [n] else r
  }

  function SplitBlock(lines: seq<string>, m: Markers): Split {
    var begins := Indices(lines, m.begin);
    var ends := Indices(lines, m.end);
    if begins == [] && ends == [] then
      Split(lines, [])
    else if |begins| != 1 || |ends| != 1 || begins[0] > ends[0] then
      Refused
    else
      var start, stop := begins[0], ends[0];
      assert start in begins && stop in ends;
      Split(lines[..start] + lines[stop + 1..], lines[start..stop + 1])
  }

  lemma {:induction false} IndicesSingle(lines: seq<string>, marker: string, k: nat)
    requires k < |lines| && Strip(lines[k]) == marker
    requires forall i | 0 <= i < |lines| && i != k :: Strip(lines[i]) != marker
    ensures Indices(lines, marker) == [k]
  {
    hide Strip;
    var n := |lines| - 1;
    if k == n {
      IndicesNone(lines[..n], marker);
    } else {
      IndicesSingle(lines[..n], marker, k);
    }
  }

  lemma IndicesNone(lines: seq<string>, marker: string)
    ensures Indices(lines, marker) == [] <==> forall i | 0 <= i < |lines| :: Strip(lines[i]) != marker
  {
    var r := Indices(lines, marker);
    if r != [] {
      assert r[0] in r;
    } else {
      assert forall i: nat | i < |lines| :: i !in r;
    }
  }

  lemma SplitOfFree(lines: seq<string>, m: Markers)
    requires m.Free(lines)
    ensures SplitBlock(lines, m) == Split(lines, [])
  {
    IndicesNone(lines, m.begin);
    IndicesNone(lines, m.end);
  }

  /** Where the lines of `a + block + c` come from. */
  lemma ThreePart(lines: seq<string>, a: seq<string>, block: seq<string>, c: seq<string>, m: Markers)
    requires m.Valid() && m.Decomposes(lines, a, block, c)
    ensures forall i | 0 <= i < |lines| && i != |a| :: Strip(lines[i]) != m.begin
    ensures forall i | 0 <= i < |lines| && i != |a| + |block| - 1 :: Strip(lines[i]) != m.end
    ensures lines[|a|] == block[0] && lines[|a| + |block| - 1] == block[|block| - 1]
  {
    var inner := block[1..|block| - 1];
    forall i | 0 <= i < |lines|
      ensures i != |a| ==> Strip(lines[i]) != m.begin
      ensures i != |a| + |block| - 1 ==> Strip(lines[i]) != m.end
    {
      if i < |a| {
        assert lines[i] == a[i];
      } else if i >= |a| + |block| {
        assert lines[i] == c[i - |a| - |block|];
      } else if |a| < i < |a| + |block| - 1 {
        assert lines[i] == inner[i - |a| - 1];
      }
    }
  }

  lemma SplitOfDecomposed(lines: seq<string>, a: seq<string>, block: seq<string>, c: seq<string>, m: Markers)
    requires m.Valid() && m.Decomposes(lines, a, block, c)
    ensures SplitBlock(lines, m) == Split(a + c, block)
    ensures Indices(lines, m.begin) == [|a|]
  {
    ThreePart(lines, a, block, c, m);
    IndicesSingle(lines, m.begin, |a|);
    IndicesSingle(lines, m.end, |a| + |block| - 1);
    assert lines[..|a|] == a;
    assert lines[|a| + |block|..] == c;
    assert lines[|a|..|a| + |block|] == block;
  }

  /** What a successful split says about the file it was given. */
  lemma SplitShape(lines: seq<string>, m: Markers) returns (a: seq<string>, c: seq<string>)
    requires m.Valid() && SplitBlock(lines, m).Split?
    ensures SplitBlock(lines, m).rest == a + c
    ensures m.Free(a) && m.Free(c) && m.Free(a + c)
    ensures lines == a + SplitBlock(lines, m).block + c
    ensures SplitBlock(lines, m).block == [] || m.Delimits(SplitBlock(lines, m).block)
  {
    hide Strip, Indices;
    var begins, ends := Indices(lines, m.begin), Indices(lines, m.end);
    if begins == [] && ends == [] {
      IndicesNone(lines, m.begin);
      IndicesNone(lines, m.end);
      a, c := lines, [];
      assert a + c == lines && a + [] + c == lines;
    } else {
      OnlyIndex(lines, m.begin);
      OnlyIndex(lines, m.end);
      DelimitedShape(lines, begins[0], ends[0], m);
      a, c := lines[..begins[0]], lines[ends[0] + 1..];
    }
  }

  lemma OnlyIndex(lines: seq<string>, marker: string)
    requires |Indices(lines, marker)| == 1
    ensures Indices(lines, marker)[0] < |lines|
    ensures forall i | 0 <= i < |lines| :: Strip(lines[i]) == marker <==> i == Indices(lines, marker)[0]
  {
    var r := Indices(lines, marker);
    assert r[0] in r;
    assert forall i: nat :: i in r <==> i == r[0];
  }

  lemma DelimitedShape(lines: seq<string>, start: nat, stop: nat, m: Markers)
    requires m.Valid() && start <= stop < |lines|
    requires forall i | 0 <= i < |lines| :: Strip(lines[i]) == m.begin <==> i == start
    requires forall i | 0 <= i < |lines| :: Strip(lines[i]) == m.end <==> i == stop
    ensures start < stop
    ensures m.Decomposes(lines, lines[..start], lines[start..stop + 1], lines[stop + 1..])
    ensures m.Free(lines[..start] + lines[stop + 1..])
  {
    hide Strip;
    assert Strip(lines[start]) == m.begin && Strip(lines[stop]) == m.end;
    var a, block, c := lines[..start], lines[start..stop + 1], lines[stop + 1..];
    assert forall i | 0 <= i < |block| :: block[i] == lines[start + i];
    assert forall i | 0 <= i < |c| :: c[i] == lines[stop + 1 + i];
    assert lines == a + block + c;
  }

  /** `split_block` accepts exactly the marker-free files and the files that are the
      workspace's own lines around one delimited block; everything else is refused. */
  lemma SplitsExactly(lines: seq<string>, m: Markers)
    requires m.Valid()
    ensures SplitBlock(lines, m).Split?
       <==> m.Free(lines) || exists a, block, c :: m.Decomposes(lines, a, block, c)
  {
    if m.Free(lines) {
      SplitOfFree(lines, m);
    } else if a, block, c :| m.Decomposes(lines, a, block, c) {
      SplitOfDecomposed(lines, a, block, c, m);
    } else if SplitBlock(lines, m).Split? {
      var a, c := SplitShape(lines, m);
      var block := SplitBlock(lines, m).block;
      assert block == [] ==> lines == a + c;
      assert block != [] ==> m.Decomposes(lines, a, block, c);
    }
  }

  /** One line is this marker between white space, and no other is. */
  ghost predicate Lone(lines: seq<string>, marker: string, i: nat) {
    i < |lines| && forall k | 0 <= k < |lines| :: Padded(lines[k], marker) <==> k == i
  }

  ghost predicate Absent(lines: seq<string>, marker: string) {
    forall k | 0 <= k < |lines| :: !Padded(lines[k], marker)
  }

  lemma MarkersByStrip(lines: seq<string>, m: Markers)
    requires m.Valid()
    ensures forall k | 0 <= k < |lines| :: Padded(lines[k], m.begin) <==> Strip(lines[k]) == m.begin
    ensures forall k | 0 <= k < |lines| :: Padded(lines[k], m.end) <==> Strip(lines[k]) == m.end
  {
    hide Strip, Padded;
    forall k | 0 <= k < |lines|
      ensures Padded(lines[k], m.begin) <==> Strip(lines[k]) == m.begin
      ensures Padded(lines[k], m.end) <==> Strip(lines[k]) == m.end
    {
      StripsToIff(lines[k], m.begin);
      StripsToIff(lines[k], m.end);
    }
  }

  /** What a split is, by line numbers: with one begin marker and one end marker after it,
      the lines from the one to the other are the block. */
  lemma SplitIs(lines: seq<string>, m: Markers, i: nat, j: nat)
    requires m.Valid() && i < j && Lone(lines, m.begin, i) && Lone(lines, m.end, j)
    ensures SplitBlock(lines, m) == Split(lines[..i] + lines[j + 1..], lines[i..j + 1])
  {
    hide Strip, Padded, Markers.Valid, SplitBlock, Indices;
    MarkersByStrip(lines, m);
    IndicesSingle(lines, m.begin, i);
    IndicesSingle(lines, m.end, j);
    hide Lone;
    SplitFromIndices(lines, m, i, j);
  }

  lemma SplitFromIndices(lines: seq<string>, m: Markers, i: nat, j: nat)
    requires i < j < |lines| && Indices(lines, m.begin) == [i] && Indices(lines, m.end) == [j]
    ensures SplitBlock(lines, m) == Split(lines[..i] + lines[j + 1..], lines[i..j + 1])
  {
    hide Strip, Indices;
  }

  /** And a file is accepted exactly when it has that shape or has neither marker. */
  lemma SplitsByLine(lines: seq<string>, m: Markers)
    requires m.Valid()
    ensures Absent(lines, m.begin) && Absent(lines, m.end) ==> SplitBlock(lines, m) == Split(lines, [])
    ensures SplitBlock(lines, m).Split?
       <==> (Absent(lines, m.begin) && Absent(lines, m.end))
            || exists i, j :: i < j && Lone(lines, m.begin, i) && Lone(lines, m.end, j)
  {
    hide Strip, Padded;
    MarkersByStrip(lines, m);
    IndicesNone(lines, m.begin);
    IndicesNone(lines, m.end);
    forall i: nat, j: nat | i < j && Lone(lines, m.begin, i) && Lone(lines, m.end, j)
      ensures SplitBlock(lines, m).Split?
    {
      SplitIs(lines, m, i, j);
    }
    if SplitBlock(lines, m).Split? && Indices(lines, m.begin) != [] {
      OnlyIndex(lines, m.begin);
      OnlyIndex(lines, m.end);
      var i, j := Indices(lines, m.begin)[0], Indices(lines, m.end)[0];
      assert Lone(lines, m.begin, i) && Lone(lines, m.end, j);
      assert i != j;
    }
  }

  /** The decomposition is unique, so nothing about the boundary is guessed. */
  lemma DecompositionUnique(lines: seq<string>, m: Markers,
                            a: seq<string>, block: seq<string>, c: seq<string>,
                            a': seq<string>, block': seq<string>, c': seq<string>)
    requires m.Valid()
    requires m.Decomposes(lines, a, block, c) && m.Decomposes(lines, a', block', c')
    ensures a == a' && block == block' && c == c'
  {
    SplitOfDecomposed(lines, a, block, c, m);
    SplitOfDecomposed(lines, a', block', c', m);
    assert lines == a + block + c == a' + block' + c';
    hide Markers.Decomposes, SplitBlock, Indices;
    assert [|a|][0] == [|a'|][0];
    assert a == lines[..|a|] && a' == lines[..|a'|];
    assert c == lines[|a| + |block|..] && c' == lines[|a'| + |block'|..];
  }

  /** A block put anywhere into marker-free lines is found again, and taking it out
      gives those lines back. */
  lemma SplitOfInserted(rest: seq<string>, k: nat, block: seq<string>, m: Markers)
    requires m.Valid() && k <= |rest| && m.Free(rest) && m.Delimits(block)
    ensures SplitBlock(rest[..k] + block + rest[k..], m) == Split(rest, block)
  {
    assert rest[..k] + rest[k..] == rest;
    SplitOfDecomposed(rest[..k] + block + rest[k..], rest[..k], block, rest[k..], m);
  }

  lemma TwoIndices(lines: seq<string>, marker: string, i: nat, j: nat)
    requires i < j < |lines| && Strip(lines[i]) == Strip(lines[j]) == marker
    ensures |Indices(lines, marker)| >= 2
  {
    hide Strip;
    var r := Indices(lines, marker);
    assert i in r && j in r;
    var p :| 0 <= p < |r| && r[p] == i;
    var q :| 0 <= q < |r| && r[q] == j;
    assert p != q;
  }

  /** Marker-free lines around a begin marker, some lines and an end marker: the file can be
      split exactly when the lines between are marker-free, and the split is that one. */
  lemma SplitAround(a: seq<string>, x: string, inner: seq<string>, y: string, c: seq<string>, m: Markers)
    requires m.Valid() && m.Free(a) && m.Free(c) && Strip(x) == m.begin && Strip(y) == m.end
    ensures var block := [x] + inner + [y];
            SplitBlock(a + block + c, m) == if m.Free(inner) then Split(a + c, block) else Refused
  {
    hide Strip, Indices;
    var block := [x] + inner + [y];
    var lines := a + block + c;
    if m.Free(inner) {
      assert block[1..|block| - 1] == inner;
      SplitOfDecomposed(lines, a, block, c, m);
    } else {
      var j :| 0 <= j < |inner| && m.On(inner[j]);
      assert lines[|a|] == x && lines[|a| + 1 + j] == inner[j] && lines[|a| + 1 + |inner|] == y;
      if Strip(inner[j]) == m.begin {
        TwoIndices(lines, m.begin, |a|, |a| + 1 + j);
      } else {
        TwoIndices(lines, m.end, |a| + 1 + j, |a| + 1 + |inner|);
      }
    }
  }

  lemma FreeJoin(a: seq<string>, b: seq<string>, m: Markers)
    ensures m.Free(a + b) <==> m.Free(a) && m.Free(b)
  {
    hide Strip;
    assert forall i | 0 <= i < |a| :: (a + b)[i] == a[i];
    assert forall i | 0 <= i < |b| :: (a + b)[|a| + i] == b[i];
  }

  /** Written lines read back without a marker exactly when no line breaks into one. */
  lemma {:induction false} FreeReread(lines: seq<string>, nl: string, m: Markers)
    ensures m.Free(Reread(lines, nl)) <==> forall i | 0 <= i < |lines| :: m.Free(SplitLines(lines[i] + nl))
  {
    hide SplitLines, Markers.Free;
    if lines == [] {
      NoneIsFree(m);
    } else {
      FreeReread(lines[1..], nl, m);
      FreeJoin(SplitLines(lines[0] + nl), Reread(lines[1..], nl), m);
      assert forall i | 0 < i < |lines| :: lines[i] == lines[1..][i - 1];
      assert forall i | 0 <= i < |lines| - 1 :: lines[1..][i] == lines[i + 1];
    }
  }

  lemma NoneIsFree(m: Markers)
    ensures m.Free([])
  {
  }

  /** Re-inserting what a split took out, where it was, rebuilds the file. */
  lemma SplitReinserts(lines: seq<string>, m: Markers)
    requires m.Valid() && SplitBlock(lines, m).Split?
    ensures var s := SplitBlock(lines, m);
            && m.Free(s.rest)
            && exists k | 0 <= k <= |s.rest| :: s.rest[..k] + s.block + s.rest[k..] == lines
  {
    var a, c := SplitShape(lines, m);
    var s := SplitBlock(lines, m);
    assert s.rest[..|a|] == a && s.rest[|a|..] == c;
  }

  lemma SplitBoundaryFree(lines: seq<string>, m: Markers)
    requires m.Valid() && AllBoundaryFree(lines) && SplitBlock(lines, m).Split?
    ensures AllBoundaryFree(SplitBlock(lines, m).rest) && AllBoundaryFree(SplitBlock(lines, m).block)
    ensures m.Free(SplitBlock(lines, m).rest)
  {
    hide SplitBlock, Strip, BoundaryFree, Indices;
    var a, c := SplitShape(lines, m);
    var block := SplitBlock(lines, m).block;
    BoundaryFreeParts(a + block, c);
    BoundaryFreeParts(a, block);
    BoundaryFreeParts(a, c);
  }
}
