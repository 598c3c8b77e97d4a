/** Section-aware moves in the sidebar (client/src/components/AppSidebar.tsx,
    `sectionNeighbour` and the move handlers; client/src/hooks/useSidebarTabs.ts,
    `swapEntries`). One ranked list holds both sections, which are drawn apart. */
module Sidebar {
  import opened Text

  datatype Entry = Entry(id: string, isView: bool, pinned: bool)

  type Entries = seq<Entry>

  /** Drawn in the section of pinned tabs, or in the one of unpinned tabs. */
  predicate Drawn(e: Entry, pinned: bool) {
    e.isView && e.pinned == pinned
  }

  function Section(entries: Entries, pinned: bool): Entries {
    if entries == [] then []
    else
      var last := entries[|entries| - 1];
      Section(entries[..|entries| - 1], pinned) + if Drawn(last, pinned) then [last] else []
  }

  /** `j` is the nearest entry from `i`, in the direction of `offset`, drawn beside it. */
  ghost predicate IsNeighbour(entries: Entries, i: int, offset: int, j: int)
    requires 0 <= i < |entries| && (offset == 1 || offset == -1)
  {
    && 0 <= j < |entries| && (if offset == 1 then i < j else j < i)
    && Drawn(entries[j], entries[i].pinned)
    && NoneBetween(entries, i, j)
  }

  ghost predicate NoneBetween(entries: Entries, i: int, j: int)
    requires 0 <= i < |entries| && 0 <= j < |entries|
  {
    forall k | 0 <= k < |entries| && (i < k < j || j < k < i) :: !Drawn(entries[k], entries[i].pinned)
  }

  method SectionNeighbour(entries: Entries, index: nat, offset: int) returns (r: Option<nat>)
    requires index < |entries| && (offset == 1 || offset == -1)
    ensures r.Some? ==>
              && r.value < |entries| && (if offset == 1 then index < r.value else r.value < index)
              && entries[r.value].isView && entries[r.value].pinned == entries[index].pinned
              && forall k | 0 <= k < |entries| && (index < k < r.value || r.value < k < index) ::
                   !(entries[k].isView && entries[k].pinned == entries[index].pinned)
    ensures r.None? ==>
              forall k | 0 <= k < |entries| && (if offset == 1 then index < k else k < index) ::
                !(entries[k].isView && entries[k].pinned == entries[index].pinned)
    ensures r.Some? ==> IsNeighbour(entries, index, offset, r.value)
    ensures r.None? ==> forall j :: !IsNeighbour(entries, index, offset, j)
  {
    var at: int := index + offset;
    while 0 <= at < |entries|
      invariant -1 <= at <= |entries| && (if offset == 1 then index < at else at < index)
      invariant forall k | 0 <= k < |entries| && (index < k < at || at < k < index) ::
                  !Drawn(entries[k], entries[index].pinned)
      decreases if offset == 1 then |entries| - at else at
    {
      var other := entries[at];
      if other.isView && other.pinned == entries[index].pinned {
        return Some(at);
      }
      at := at + offset;
    }
    r := None;
  }

  /** `swapEntries`: the permutation sent has the two ids exchanged. */
  function Swapped(entries: Entries, i: nat, j: nat): Entries
    requires i < |entries| && j < |entries|
  {
    entries[i := entries[j]][j := entries[i]]
  }

  lemma NeighbourUnique(entries: Entries, i: nat, offset: int, j: int, j': int)
    requires i < |entries| && (offset == 1 || offset == -1)
    requires IsNeighbour(entries, i, offset, j) && IsNeighbour(entries, i, offset, j')
    ensures j == j'
  {
  }

  /** Previous and next are inverse: each drawn row is its neighbour's neighbour. */
  lemma NeighboursAreMutual(entries: Entries, i: nat, offset: int, j: nat)
    requires i < |entries| && (offset == 1 || offset == -1) && entries[i].isView
    requires IsNeighbour(entries, i, offset, j)
    ensures IsNeighbour(entries, j, -offset, i)
  {
  }

  // ---------------------------------------------------------------- what a move does

  lemma {:induction false} SectionJoin(a: Entries, b: Entries, pinned: bool)
    ensures Section(a + b, pinned) == Section(a, pinned) + Section(b, pinned)
  {
    if b == [] {
      assert a + b == a;
    } else {
      SectionJoin(a, b[..|b| - 1], pinned);
      assert (a + b)[..|a + b| - 1] == a + b[..|b| - 1];
    }
  }

  lemma {:induction false} SectionEmpty(a: Entries, pinned: bool)
    requires forall k | 0 <= k < |a| :: !Drawn(a[k], pinned)
    ensures Section(a, pinned) == []
  {
    if a == [] {
    } else {
      SectionEmpty(a[..|a| - 1], pinned);
    }
  }

  lemma SectionOne(e: Entry, pinned: bool)
    ensures Section([e], pinned) == if Drawn(e, pinned) then [e] else []
  {
    assert [e][..0] == [];
  }

  /** `a`, one entry, `b`, another, `c`: how a section is put together. */
  lemma SectionOfFive(a: Entries, x: Entry, b: Entries, y: Entry, c: Entries, pinned: bool)
    ensures Section(a + [x] + b + [y] + c, pinned)
         == Section(a, pinned) + Section([x], pinned) + Section(b, pinned) + Section([y], pinned) + Section(c, pinned)
  {
    SectionJoin(a + [x] + b + [y], c, pinned);
    SectionJoin(a + [x] + b, [y], pinned);
    SectionJoin(a + [x], b, pinned);
    SectionJoin(a, [x], pinned);
  }

  lemma SplitFive(entries: Entries, i: nat, j: nat)
    requires i < j < |entries|
    ensures var a, b, c := entries[..i], entries[i + 1..j], entries[j + 1..];
            && entries == a + [entries[i]] + b + [entries[j]] + c
            && Swapped(entries, i, j) == a + [entries[j]] + b + [entries[i]] + c
  {
  }

  /** Both orders of the two entries, section by section. */
  lemma SwapSections(entries: Entries, i: nat, j: nat, pinned: bool)
    requires i < j < |entries|
    ensures var before, between := Section(entries[..i], pinned), Section(entries[i + 1..j], pinned);
            var after := Section(entries[j + 1..], pinned);
            var x := if Drawn(entries[i], pinned) then [entries[i]] else [];
            var y := if Drawn(entries[j], pinned) then [entries[j]] else [];
            && Section(entries, pinned) == before + x + between + y + after
            && Section(Swapped(entries, i, j), pinned) == before + y + between + x + after
  {
    var a, b, c := entries[..i], entries[i + 1..j], entries[j + 1..];
    SplitFive(entries, i, j);
    SectionOfFive(a, entries[i], b, entries[j], c, pinned);
    SectionOfFive(a, entries[j], b, entries[i], c, pinned);
    SectionOne(entries[i], pinned);
    SectionOne(entries[j], pinned);
  }

  lemma NothingBetween(entries: Entries, i: nat, j: nat)
    requires i < j < |entries| && NoneBetween(entries, i, j)
    ensures Section(entries[i + 1..j], entries[i].pinned) == []
  {
    var b := entries[i + 1..j];
    assert forall k | 0 <= k < |b| :: b[k] == entries[i + 1 + k];
    SectionEmpty(b, entries[i].pinned);
  }

  /** Moving a row past its neighbour exchanges two rows that are drawn next to each other
      and changes nothing else that is drawn: the other section is identical, and every
      entry that is not one of the two keeps its rank. */
  lemma MoveIsAdjacentSwap(entries: Entries, i: nat, j: nat)
    requires i < j < |entries| && entries[i].isView && IsNeighbour(entries, i, 1, j)
    ensures var pinned := entries[i].pinned;
            var before, after := Section(entries[..i], pinned), Section(entries[j + 1..], pinned);
            var moved := Swapped(entries, i, j);
            && Section(entries, pinned) == before + [entries[i], entries[j]] + after
            && Section(moved, pinned) == before + [entries[j], entries[i]] + after
            && Section(moved, !pinned) == Section(entries, !pinned)
            && forall k | 0 <= k < |entries| && k != i && k != j :: moved[k] == entries[k]
  {
    hide Section;
    var pinned := entries[i].pinned;
    NothingBetween(entries, i, j);
    SwapSections(entries, i, j, pinned);
    SwapSections(entries, i, j, !pinned);
    Glue(Section(entries[..i], pinned), entries[i], entries[j], Section(entries[j + 1..], pinned));
    Glue(Section(entries[..i], pinned), entries[j], entries[i], Section(entries[j + 1..], pinned));
  }

  lemma Glue<T>(a: seq<T>, x: T, y: T, c: seq<T>)
    ensures a + [x] + [] + [y] + c == a + [x, y] + c
  {
  }

  /** Up and then down again, or down and then up, is where the row started. */
  lemma MoveThereAndBack(entries: Entries, i: nat, offset: int, j: nat)
    requires i < |entries| && (offset == 1 || offset == -1) && entries[i].isView
    requires IsNeighbour(entries, i, offset, j)
    ensures var moved := Swapped(entries, i, j);
            && moved[j] == entries[i]
            && IsNeighbour(moved, j, -offset, i)
            && Swapped(moved, j, i) == entries
  {
  }

  // ---------------------------------------------------------------- the client's lookups

  ghost predicate IsFirst(entries: Entries, i: int, id: string) {
    0 <= i < |entries| && entries[i].id == id && forall k | 0 <= k < i :: entries[k].id != id
  }

  method IndexOf(entries: Entries, id: string) returns (r: Option<nat>)
    ensures r.Some? ==> IsFirst(entries, r.value, id)
    ensures r.None? ==> forall k | 0 <= k < |entries| :: entries[k].id != id
  {
    var k := 0;
    while k < |entries|
      invariant 0 <= k <= |entries| && forall m | 0 <= m < k :: entries[m].id != id
    {
      if entries[k].id == id {
        return Some(k);
      }
      k := k + 1;
    }
    r := None;
  }

  /** `swapEntries` as it is called, by id. */
  method SwapEntries(entries: Entries, entryId: string, otherId: string) returns (moved: Entries)
    ensures forall i, j | IsFirst(entries, i, entryId) && IsFirst(entries, j, otherId) ::
              moved == Swapped(entries, i, j)
    ensures ((forall k | 0 <= k < |entries| :: entries[k].id != entryId)
             || (forall k | 0 <= k < |entries| :: entries[k].id != otherId)) ==> moved == entries
    ensures multiset(moved) == multiset(entries)
  {
    var from := IndexOf(entries, entryId);
    var to := IndexOf(entries, otherId);
    if from.None? || to.None? || from == to {
      return entries;
    }
    moved := Swapped(entries, from.value, to.value);
  }

  ghost predicate DistinctIds(entries: Entries) {
    forall i, j | 0 <= i < j < |entries| :: entries[i].id != entries[j].id
  }

  /** Clicking one of a row's arrows: the row and its neighbour are exchanged by their ids,
      so they are the ones exchanged when no two entries share an id. */
  method Move(entries: Entries, index: nat, offset: int) returns (moved: Entries)
    requires index < |entries| && (offset == 1 || offset == -1)
    ensures forall j, p, q ::
              IsNeighbour(entries, index, offset, j)
              && IsFirst(entries, p, entries[index].id) && IsFirst(entries, q, entries[j].id) ==>
                moved == Swapped(entries, p, q)
    ensures DistinctIds(entries) ==>
              forall j :: IsNeighbour(entries, index, offset, j) ==> moved == Swapped(entries, index, j)
    ensures (forall j :: !IsNeighbour(entries, index, offset, j)) ==> moved == entries
  {
    var other := SectionNeighbour(entries, index, offset);
    if other.None? {
      return entries;
    }
    var at := other.value;
    forall j | IsNeighbour(entries, index, offset, j) ensures j == at {
      NeighbourUnique(entries, index, offset, j, at);
    }
    if DistinctIds(entries) {
      DistinctIsFirst(entries, index);
      DistinctIsFirst(entries, at);
    }
    hide Swapped;
    moved := SwapEntries(entries, entries[index].id, entries[at].id);
  }

  lemma DistinctIsFirst(entries: Entries, i: nat)
    requires DistinctIds(entries) && i < |entries|
    ensures IsFirst(entries, i, entries[i].id)
  {
  }
}
