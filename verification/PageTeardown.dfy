/** Tearing a page-table tree down, described on values. While `destroy_level` runs, frames that
    were already freed may hold anything, so the tree is described by the positions it had at
    the start. */
module PageTeardowns {
  import opened MachineInts
  import opened RangeSets
  import opened PhysicalMemories
  import opened PageTrees
  import opened PageMaps
  import opened PageSnapshots

  /** The parts of a tree that do not depend on the contents of memory. */
  ghost predicate Positions(tables: Tables, pages: Pages, limit: int) {
    && DistinctTables(tables) && Separate(tables, pages) && OwnedPagesFit(pages, limit)
    && (forall p {:trigger Rooted(tables, p)} :: p in tables || p in pages ==> Rooted(tables, p))
    && Root !in pages
    && (forall p :: p in tables ==> tables[p] % 4096 == 0 && p !in pages)
  }

  /** The tables at and below `c` are still in memory as they were. */
  ghost predicate Intact(mem: Memory, tables: Tables, pages: Pages, c: Path) {
    forall p {:trigger TableOk(mem, tables, pages, p)} :: p in tables && Under(p, c) ==> TableOk(mem, tables, pages, p)
  }

  /** A word of a table at or below `c`. */
  ghost predicate IsWordUnder(tables: Tables, c: Path, w: nat) {
    exists p, i: nat :: p in tables && Under(p, c) && i < 512 && w == Slot(tables[p], i)
  }

  ghost predicate ChangesUnder(before: Memory, after: Memory, tables: Tables, c: Path) {
    |after| == |before| && forall w :: 0 <= w < |after| && after[w] != before[w] ==> IsWordUnder(tables, c, w)
  }

  lemma TreeHasPositions(mem: Memory, root: u64, tables: Tables, pages: Pages, limit: int)
    requires IsTree(mem, root, tables, pages) && Separate(tables, pages) && OwnedPagesFit(pages, limit)
    ensures Positions(tables, pages, limit) && Intact(mem, tables, pages, Root)
  {
    forall p | p in tables ensures tables[p] % 4096 == 0 && p !in pages {
      assert TableOk(mem, tables, pages, p);
      AncestorsAreTables(mem, root, tables, pages, p, p);
    }
  }

  /** A position with a table or page at or below it is itself a table or page. */
  lemma OccupiedBelow(tables: Tables, pages: Pages, limit: int, q: Path, c: Path)
    requires Positions(tables, pages, limit) && Under(q, c) && (q in tables || q in pages)
    ensures q != c ==> c in tables
    ensures c in tables || c in pages
  {
    if q != c {
      assert Rooted(tables, q);
      OccupiedBelow(tables, pages, limit, q.parent, c);
    }
  }

  lemma SiblingsAreApart(q: Path, p: Path, i: nat, j: nat)
    requires Under(q, Sub(p, i)) && Under(q, Sub(p, j))
    ensures i == j
  {
    UnderIsLinear(q, Sub(p, i), Sub(p, j));
    if Under(Sub(p, i), Sub(p, j)) { UnderIsDeeper(Sub(p, i), Sub(p, j)); }
    else { UnderIsDeeper(Sub(p, j), Sub(p, i)); }
  }

  lemma ChildIsNotAbove(p: Path, i: nat)
    ensures !Under(p, Sub(p, i)) && Under(Sub(p, i), p)
  {
    if Under(p, Sub(p, i)) { UnderIsDeeper(p, Sub(p, i)); }
  }

  /** Which child of `p` a position below it belongs to. */
  lemma {:induction false} ChildAbove(q: Path, p: Path) returns (i: nat)
    requires Under(q, p) && q != p
    ensures Under(q, Sub(p, i))
    decreases q
  {
    if q.parent == p {
      i := q.index;
    } else {
      i := ChildAbove(q.parent, p);
    }
  }

  /** The bytes owned below the first `n` entries of the table at `p`. */
  ghost function OwnedUpTo(tables: Tables, pages: Pages, p: Path, n: nat): iset<int> {
    iset x: int | OwnedAtChild(tables, pages, p, n, x)
  }

  ghost predicate OwnedAtChild(tables: Tables, pages: Pages, p: Path, n: nat, x: int) {
    exists i: nat :: i < n && OwnedAt(tables, pages, Sub(p, i), x)
  }

  lemma OwnedUpToStep(tables: Tables, pages: Pages, p: Path, n: nat)
    ensures OwnedUpTo(tables, pages, p, 0) == iset{}
    ensures OwnedUpTo(tables, pages, p, n + 1) == OwnedUpTo(tables, pages, p, n) + OwnedUnder(tables, pages, Sub(p, n))
  {
  }

  /** What a table owns is its own frame and what its 512 entries own; these are disjoint. */
  lemma OwnedByTable(tables: Tables, pages: Pages, limit: int, p: Path)
    requires Positions(tables, pages, limit) && p in tables
    ensures OwnedUnder(tables, pages, p) == OwnedUpTo(tables, pages, p, 512) + Span(tables[p], 4096)
  {
    forall x ensures x in OwnedUnder(tables, pages, p) <==> x in OwnedUpTo(tables, pages, p, 512) || x in Span(tables[p], 4096) {
      if x in OwnedUnder(tables, pages, p) && x !in Span(tables[p], 4096) {
        var q :| Under(q, p) && OwnsByte(tables, pages, q, x);
        var i := ChildAbove(q, p);
        OccupiedBelow(tables, pages, limit, q, Sub(p, i));
        assert Rooted(tables, Sub(p, i));
        assert OwnedAt(tables, pages, Sub(p, i), x);
      }
      if x in OwnedUpTo(tables, pages, p, 512) {
        var i: nat :| i < 512 && OwnedAt(tables, pages, Sub(p, i), x);
        var q :| Under(q, Sub(p, i)) && OwnsByte(tables, pages, q, x);
        ChildIsNotAbove(p, i);
        UnderIsTransitive(q, Sub(p, i), p);
      }
      if x in Span(tables[p], 4096) { assert Under(p, p) && OwnsByte(tables, pages, p, x); }
    }
  }

  lemma OwnedPartsAreDisjoint(tables: Tables, pages: Pages, limit: int, p: Path, n: nat)
    requires Positions(tables, pages, limit) && p in tables
    ensures OwnedUnder(tables, pages, Sub(p, n)) !! OwnedUpTo(tables, pages, p, n)
    ensures Span(tables[p], 4096) !! OwnedUpTo(tables, pages, p, n)
    ensures OwnedUpTo(tables, pages, p, n) <= OwnedUnder(tables, pages, p)
    ensures OwnedUnder(tables, pages, Sub(p, n)) <= OwnedUnder(tables, pages, p)
  {
    forall x, i: nat, q | i <= n && Under(q, Sub(p, i)) && OwnsByte(tables, pages, q, x)
      ensures x in OwnedUnder(tables, pages, p) && q != p
    {
      ChildIsNotAbove(p, i);
      UnderIsTransitive(q, Sub(p, i), p);
    }
    assert forall x :: InSpan(tables[p], 4096, x) ==> OwnsByte(tables, pages, p, x);
    forall x | x in OwnedUpTo(tables, pages, p, n)
      ensures x !in OwnedUnder(tables, pages, Sub(p, n)) && x !in Span(tables[p], 4096)
    {
      var i: nat :| i < n && OwnedAt(tables, pages, Sub(p, i), x);
      var q :| Under(q, Sub(p, i)) && OwnsByte(tables, pages, q, x);
      if x in OwnedUnder(tables, pages, Sub(p, n)) {
        var r :| Under(r, Sub(p, n)) && OwnsByte(tables, pages, r, x);
        SiblingsAreApart(q, p, i, n);
      }
    }
  }

  /** What destroying the part of a tree at and below `p` needs. */
  ghost predicate Doomed(mem: Memory, free: iset<int>, lost: iset<int>, tables: Tables, pages: Pages, limit: int, p: Path) {
    && Positions(tables, pages, limit) && p in tables && Intact(mem, tables, pages, p)
    && OwnedUnder(tables, pages, p) !! free && OwnedUnder(tables, pages, p) !! lost
  }

  /** The state of the loop over the entries of the table at `p`, before entry `n`. */
  ghost predicate Destroying(before: Memory, free0: iset<int>, mem: Memory, free: iset<int>, tables: Tables, pages: Pages,
                             p: Path, n: nat) {
    && free == free0 + OwnedUpTo(tables, pages, p, n)
    && |mem| == |before|
    && forall w :: 0 <= w < |mem| && mem[w] != before[w] ==> IsWordUpTo(tables, p, n, w)
  }

  /** A word below one of the first `n` entries of the table at `p`, or one of these entries. */
  ghost predicate IsWordUpTo(tables: Tables, p: Path, n: nat, w: nat) {
    exists i: nat :: i < n && IsEntryOrBelow(tables, p, i, w)
  }

  ghost predicate IsEntryOrBelow(tables: Tables, p: Path, i: nat, w: nat) {
    (p in tables && w == Slot(tables[p], i)) || IsWordUnder(tables, Sub(p, i), w)
  }

  /** Entry `n` of the table at `p` and everything below it are untouched when the loop gets there. */
  lemma NextIsUntouched(before: Memory, free0: iset<int>, mem: Memory, free: iset<int>, tables: Tables, pages: Pages,
                        limit: int, p: Path, n: nat)
    requires Positions(tables, pages, limit) && p in tables && Intact(before, tables, pages, p) && n < 512
    requires Destroying(before, free0, mem, free, tables, pages, p, n)
    ensures Slot(tables[p], n) < |mem| && mem[Slot(tables[p], n)] == before[Slot(tables[p], n)]
    ensures Intact(mem, tables, pages, Sub(p, n))
  {
    assert TableOk(before, tables, pages, p);
    WordsAreApart(tables, pages, limit, p, n, p, n);
    forall q | q in tables && Under(q, Sub(p, n)) ensures TableOk(mem, tables, pages, q) {
      ChildIsNotAbove(p, n);
      UnderIsTransitive(q, Sub(p, n), p);
      assert TableOk(before, tables, pages, q);
      forall i: nat | i < 512 ensures mem[Slot(tables[q], i)] == before[Slot(tables[q], i)] {
        WordsAreApart(tables, pages, limit, p, n, q, i);
      }
    }
  }

  /** Neither entry `n` of `p` nor a word below it is reached through an earlier entry. */
  lemma WordsAreApart(tables: Tables, pages: Pages, limit: int, p: Path, n: nat, q: Path, i: nat)
    requires Positions(tables, pages, limit) && p in tables && q in tables && i < 512 && n < 512
    requires (q == p && i == n) || Under(q, Sub(p, n))
    ensures !IsWordUpTo(tables, p, n, Slot(tables[q], i))
  {
    var w := Slot(tables[q], i);
    forall j: nat | j < n ensures !IsEntryOrBelow(tables, p, j, w) {
      if w == Slot(tables[p], j) {
        DistinctFrames(tables[p], j, tables[q], i);
        ChildIsNotAbove(p, n);
      }
      if IsWordUnder(tables, Sub(p, j), w) {
        var r, k: nat :| r in tables && Under(r, Sub(p, j)) && k < 512 && w == Slot(tables[r], k);
        DistinctFrames(tables[r], k, tables[q], i);
        if q == p { ChildIsNotAbove(p, j); } else { SiblingsAreApart(q, p, j, n); }
      }
    }
  }

  /** An entry that is not present owns nothing. */
  lemma EmptyEntryOwnsNothing(tables: Tables, pages: Pages, limit: int, c: Path)
    requires Positions(tables, pages, limit) && c !in tables && c !in pages
    ensures OwnedUnder(tables, pages, c) == iset{}
  {
    forall q, x | Under(q, c) ensures !OwnsByte(tables, pages, q, x) {
      if q in tables || q in pages { OccupiedBelow(tables, pages, limit, q, c); }
    }
  }

  /** A page owns its block, if it carries the deallocate flag, and nothing else. */
  lemma PageOwnsItsBlock(tables: Tables, pages: Pages, limit: int, c: Path)
    requires Positions(tables, pages, limit) && c in pages && 2 <= Depth(c) <= 4
    ensures OwnedUnder(tables, pages, c) ==
            if Deallocate(pages[c]) then Span(AddressOf(pages[c]), TypeAt(Depth(c)).Size()) else iset{}
  {
    assert c !in tables;
    forall q, x | Under(q, c) && q != c ensures !OwnsByte(tables, pages, q, x) {
      if q in tables || q in pages { OccupiedBelow(tables, pages, limit, q, c); }
    }
    assert forall x :: OwnsByte(tables, pages, c, x) <==>
                       Deallocate(pages[c]) && InSpan(AddressOf(pages[c]), TypeAt(Depth(c)).Size(), x);
    assert Under(c, c);
  }

  lemma DestroyingStarts(before: Memory, free0: iset<int>, tables: Tables, pages: Pages, p: Path)
    ensures Destroying(before, free0, before, free0, tables, pages, p, 0)
  {
    OwnedUpToStep(tables, pages, p, 0);
  }

  /** One entry was destroyed. */
  lemma DestroyingStep(before: Memory, free0: iset<int>, mem: Memory, free: iset<int>, after: Memory, free2: iset<int>,
                       tables: Tables, pages: Pages, p: Path, n: nat)
    requires Destroying(before, free0, mem, free, tables, pages, p, n)
    requires free2 == free + OwnedUnder(tables, pages, Sub(p, n)) && |after| == |mem|
    requires forall w :: 0 <= w < |after| && after[w] != mem[w] ==> IsEntryOrBelow(tables, p, n, w)
    ensures Destroying(before, free0, after, free2, tables, pages, p, n + 1)
  {
    OwnedUpToStep(tables, pages, p, n);
    forall w | 0 <= w < |after| && after[w] != before[w] ensures IsWordUpTo(tables, p, n + 1, w) {
      if after[w] == mem[w] {
        var i: nat :| i < n && IsEntryOrBelow(tables, p, i, w);
      }
    }
  }

  /** After all entries, only the table itself is left, and only words at and below it have changed. */
  lemma DestroyingEnds(before: Memory, free0: iset<int>, lost: iset<int>, mem: Memory, free: iset<int>,
                       tables: Tables, pages: Pages, limit: int, p: Path)
    requires Doomed(before, free0, lost, tables, pages, limit, p)
    requires Destroying(before, free0, mem, free, tables, pages, p, 512)
    ensures ChangesUnder(before, mem, tables, p)
    ensures free + Span(tables[p], 4096) == free0 + OwnedUnder(tables, pages, p)
    ensures Span(tables[p], 4096) !! free && Span(tables[p], 4096) !! lost
  {
    OwnedPartsAreDisjoint(tables, pages, limit, p, 512);
    OwnedByTable(tables, pages, limit, p);
    forall w | 0 <= w < |mem| && mem[w] != before[w] ensures IsWordUnder(tables, p, w) {
      var i: nat :| i < 512 && IsEntryOrBelow(tables, p, i, w);
      if IsWordUnder(tables, Sub(p, i), w) {
        var q, k: nat :| q in tables && Under(q, Sub(p, i)) && k < 512 && w == Slot(tables[q], k);
        ChildIsNotAbove(p, i);
        UnderIsTransitive(q, Sub(p, i), p);
      } else {
        assert Under(p, p);
      }
    }
  }

  lemma TopIsTable(mem: Memory, tables: Tables, pages: Pages, p: Path)
    requires p in tables && Intact(mem, tables, pages, p)
    ensures Depth(p) <= 3 && Frame(mem, tables[p]) && tables[p] / 8 == Slot(tables[p], 0)
  {
    assert Under(p, p);
    assert TableOk(mem, tables, pages, p);
  }

  /** When the loop gets to entry `n`, its part of the tree is still doomed. */
  lemma NextIsDoomed(before: Memory, free0: iset<int>, lost: iset<int>, mem: Memory, free: iset<int>,
                     tables: Tables, pages: Pages, limit: int, p: Path, n: nat)
    requires Doomed(before, free0, lost, tables, pages, limit, p) && n < 512
    requires Destroying(before, free0, mem, free, tables, pages, p, n)
    ensures Slot(tables[p], n) < |mem|
    ensures EntryOk(mem[Slot(tables[p], n)], Depth(p), Sub(p, n), tables, pages)
    ensures OwnedUnder(tables, pages, Sub(p, n)) !! free && OwnedUnder(tables, pages, Sub(p, n)) !! lost
    ensures Sub(p, n) in tables ==> Doomed(mem, free, lost, tables, pages, limit, Sub(p, n))
    ensures Span(tables[p], 4096) !! free && Span(tables[p], 4096) !! lost
  {
    assert Under(p, p);
    assert TableOk(before, tables, pages, p);
    assert EntryOk(before[Slot(tables[p], n)], Depth(p), Sub(p, n), tables, pages);
    NextIsUntouched(before, free0, mem, free, tables, pages, limit, p, n);
    OwnedPartsAreDisjoint(tables, pages, limit, p, n);
    OwnedByTable(tables, pages, limit, p);
  }

  // ---------------------------------------------------------------------------------------
  // How much there is to free
  // ---------------------------------------------------------------------------------------

  /** The tables and pages at and below `p`. */
  ghost function PositionsUnder(tables: Tables, pages: Pages, p: Path): set<Path> {
    set q | q in tables.Keys + pages.Keys && Under(q, p)
  }

  /** The tables and pages below the first `n` entries of the table at `p`. */
  ghost function PositionsUpTo(tables: Tables, pages: Pages, p: Path, n: nat): set<Path> {
    set q | q in tables.Keys + pages.Keys && IsUnderUpTo(q, p, n)
  }

  ghost predicate IsUnderUpTo(q: Path, p: Path, n: nat) {
    exists i: nat :: i < n && Under(q, Sub(p, i))
  }

  lemma NothingUpToZero(tables: Tables, pages: Pages, p: Path)
    ensures |PositionsUpTo(tables, pages, p, 0)| == 0
  {
    assert PositionsUpTo(tables, pages, p, 0) == {};
  }

  lemma PositionsUpToStep(tables: Tables, pages: Pages, p: Path, n: nat)
    requires p in tables
    ensures |PositionsUpTo(tables, pages, p, n + 1)| == |PositionsUpTo(tables, pages, p, n)| + |PositionsUnder(tables, pages, Sub(p, n))|
    ensures |PositionsUpTo(tables, pages, p, n + 1)| < |PositionsUnder(tables, pages, p)|
  {
    var upTo, next := PositionsUpTo(tables, pages, p, n), PositionsUnder(tables, pages, Sub(p, n));
    var more := PositionsUpTo(tables, pages, p, n + 1);
    forall q | q in upTo ensures q !in next {
      var i: nat :| i < n && Under(q, Sub(p, i));
      if Under(q, Sub(p, n)) { SiblingsAreApart(q, p, i, n); }
    }
    assert more == upTo + next;
    forall q | q in more ensures q in PositionsUnder(tables, pages, p) && q != p {
      var i: nat :| i < n + 1 && Under(q, Sub(p, i));
      ChildIsNotAbove(p, i);
      UnderIsTransitive(q, Sub(p, i), p);
    }
    SubsetIsNoLarger(more + {p}, PositionsUnder(tables, pages, p));
  }

  lemma SubsetIsNoLarger(a: set<Path>, b: set<Path>)
    requires a <= b
    ensures |a| <= |b|
  {
    assert b == a + (b - a);
  }

  lemma PageCounts(tables: Tables, pages: Pages, c: Path)
    requires c in pages
    ensures |PositionsUnder(tables, pages, c)| >= 1
  {
    SubsetIsNoLarger({c}, PositionsUnder(tables, pages, c));
  }

  lemma AllPositionsCount(tables: Tables, pages: Pages)
    ensures |PositionsUnder(tables, pages, Root)| <= |tables| + |pages|
  {
    SubsetIsNoLarger(PositionsUnder(tables, pages, Root), tables.Keys + pages.Keys);
  }
}
