/** The byte-interval set behind every physical allocator of the system (libs/rangeset). */
module RangeSets {
  import opened MachineInts

  /** An inclusive range. */
  datatype Range = Range(start: u64, end: u64) {

    predicate Shaped() { start <= end }

    /** The size of a range; it wraps to 0 for the range that covers all 2^64 bytes. */
    function Size(): u64
      requires Shaped()
    {
      (end - start + 1) % TWO_64
    }
  }

  predicate Overlaps(a: Range, b: Range) {
    a.start <= b.end && b.start <= a.end
  }

  predicate Contains(a: Range, b: Range) {
    b.start >= a.start && b.end <= a.end
  }

  /** The test `insert` merges on: both ends are widened by one byte, saturating. */
  predicate Touches(a: Range, b: Range) {
    Overlaps(Range(a.start, SaturatingInc(a.end)), Range(b.start, SaturatingInc(b.end)))
  }

  // ---------------------------------------------------------------------------------------
  // Meaning of a list of ranges
  // ---------------------------------------------------------------------------------------

  ghost predicate InRange(r: Range, x: int) {
    r.start <= x <= r.end
  }

  ghost predicate InSpan(start: int, size: int, x: int) {
    start <= x < start + size
  }

  ghost predicate Covers(es: seq<Range>, x: int) {
    exists i :: 0 <= i < |es| && InRange(es[i], x)
  }

  /** The bytes from `start`, `size` many. */
  ghost function Span(start: int, size: int): iset<int> {
    iset x: int | InSpan(start, size, x)
  }

  /** The bytes of one range. */
  ghost function SpanOf(r: Range): iset<int> {
    iset x: int | InRange(r, x)
  }

  /** The bytes covered by a list of ranges. */
  ghost function Bytes(es: seq<Range>): iset<int> {
    iset x: int | Covers(es, x)
  }

  /** Every range is shaped and no two of them overlap or touch. */
  ghost predicate WellFormed(es: seq<Range>) {
    && (forall i :: 0 <= i < |es| ==> es[i].Shaped())
    && (forall i, j :: 0 <= i < j < |es| ==> !Touches(es[i], es[j]))
  }

  /** Touching means: no byte lies strictly between the two ranges. */
  lemma TouchesMeaning(a: Range, b: Range)
    requires a.Shaped() && b.Shaped()
    ensures Touches(a, b) <==> !(a.end + 1 < b.start || b.end + 1 < a.start)
  {
  }

  // ---------------------------------------------------------------------------------------
  // Best-fit choice
  // ---------------------------------------------------------------------------------------

  /** Bytes to skip in front of `start` to reach a multiple of `align`. */
  function Padding(start: u64, align: u64): (p: u64)
    requires align > 0
    ensures p < align && (start + p) % align == 0
  {
    PaddingAligns(start, align);
    (align - start % align) % align
  }

  lemma PaddingAligns(start: int, align: int)
    requires align > 0
    ensures (start + (align - start % align) % align) % align == 0
  {
    var rest := start % align;
    if rest == 0 {
      assert (align - rest) % align == 0;
    } else {
      assert (align - rest) % align == align - rest;
      MultipleHasNoRemainder(start / align + 1, align);
      assert start + (align - rest) == (start / align + 1) * align;
    }
  }

  lemma MultipleHasNoRemainder(k: int, m: int)
    requires m > 0
    ensures (k * m) % m == 0
  {
    Divides(k * m, m, k, 0);
  }

  /** A request to the allocator. */
  datatype Request = Request(size: u64, align: u64, limit: u64)

  /** `size` is not zero and `align` is a power of two. */
  predicate Sensible(q: Request)
    ensures Sensible(q) ==> q.align > 0
  {
    q.size != 0 && CountOnes(q.align) == 1
  }

  /** Last byte of the block that `q` would get from `r`, as an unbounded integer. */
  function AllocationEnd(r: Range, q: Request): int
    requires q.align > 0
  {
    r.start + (q.size - 1) + Padding(r.start, q.align)
  }

  predicate Fits(r: Range, q: Request)
    requires q.align > 0
  {
    AllocationEnd(r, q) <= r.end && AllocationEnd(r, q) <= q.limit
  }

  /** Lexicographic order on (wasted bytes, region size). */
  predicate Beats(a: Range, b: Range, align: u64)
    requires align > 0 && a.Shaped() && b.Shaped()
  {
    var pa, pb := Padding(a.start, align), Padding(b.start, align);
    pa < pb || (pa == pb && a.Size() < b.Size())
  }

  /** What the search compares. The size of a range of 2^64 bytes counts as 0. */
  lemma BeatsMeaning(a: Range, b: Range, align: u64)
    requires align > 0 && a.Shaped() && b.Shaped()
    ensures a.Size() == if a.end - a.start < U64_MAX then a.end - a.start + 1 else 0
    ensures Beats(a, b, align) <==>
            (if Padding(b.start, align) == Padding(a.start, align) then b.Size() > a.Size()
             else Padding(b.start, align) > Padding(a.start, align))
  {
  }

  lemma EntriesAreShaped(es: seq<Range>)
    requires WellFormed(es)
    ensures forall k :: 0 <= k < |es| ==> es[k].Shaped()
  {
  }

  /** `i` is the first of the best fitting ones among the first `n` entries. */
  ghost predicate IsBestOf(es: seq<Range>, q: Request, n: nat, i: int)
    requires q.align > 0 && n <= |es| && forall k :: 0 <= k < |es| ==> es[k].Shaped()
  {
    && 0 <= i < n && Fits(es[i], q)
    && (forall k :: 0 <= k < n && Fits(es[k], q) ==> !Beats(es[k], es[i], q.align))
    && (forall k :: 0 <= k < i && Fits(es[k], q) ==> Beats(es[i], es[k], q.align))
  }

  /** `i` is the first of the best fitting entries. */
  ghost predicate IsBest(es: seq<Range>, q: Request, i: int)
    requires q.align > 0 && forall k :: 0 <= k < |es| ==> es[k].Shaped()
  {
    IsBestOf(es, q, |es|, i)
  }

  lemma BeatsIsTransitive(a: Range, b: Range, c: Range, align: u64)
    requires align > 0 && a.Shaped() && b.Shaped() && c.Shaped()
    ensures Beats(a, b, align) && !Beats(c, b, align) ==> Beats(a, c, align)
    ensures Beats(a, b, align) ==> !Beats(b, a, align)
  {
  }

  /** `best` is the choice after `n` entries, -1 when none of them fits. */
  ghost predicate IsBestSoFar(es: seq<Range>, q: Request, n: nat, best: int)
    requires q.align > 0 && n <= |es| && forall k :: 0 <= k < |es| ==> es[k].Shaped()
  {
    if best == -1 then forall k :: 0 <= k < n ==> !Fits(es[k], q)
    else IsBestOf(es, q, n, best)
  }

  /** One step of the search: entry `n` takes over exactly when it fits and beats the best so far. */
  lemma BestStep(es: seq<Range>, q: Request, n: nat, best: int)
    requires q.align > 0 && n < |es| && forall k :: 0 <= k < |es| ==> es[k].Shaped()
    requires IsBestSoFar(es, q, n, best)
    ensures var next := if Fits(es[n], q) && (best == -1 || Beats(es[n], es[best], q.align)) then n else best;
      IsBestSoFar(es, q, n + 1, next)
  {
    if best != -1 && Fits(es[n], q) && Beats(es[n], es[best], q.align) {
      forall k | 0 <= k < n && Fits(es[k], q)
        ensures Beats(es[n], es[k], q.align) && !Beats(es[k], es[n], q.align)
      {
        BeatsIsTransitive(es[n], es[best], es[k], q.align);
        BeatsIsTransitive(es[n], es[k], es[best], q.align);
      }
    }
  }

  ghost predicate SomeEndOverflows(es: seq<Range>, q: Request)
    requires q.align > 0
  {
    exists i :: 0 <= i < |es| && AllocationEnd(es[i], q) > U64_MAX
  }

  ghost predicate SomeFits(es: seq<Range>, q: Request)
    requires q.align > 0
  {
    exists i :: 0 <= i < |es| && Fits(es[i], q)
  }

  /** `a` is where a block that satisfies `q` starts, all of it in the set. */
  ghost predicate BlockAt(s: iset<int>, q: Request, a: int)
    requires q.align > 0
  {
    a % q.align == 0 && a + q.size - 1 <= q.limit && Span(a, q.size) <= s
  }

  /** A run of bytes of the set starts at `a`, and the end of a block cut from its front overflows. */
  ghost predicate OverflowsAt(s: iset<int>, q: Request, a: int)
    requires q.align > 0
  {
    0 <= a < TWO_64 && a in s && a - 1 !in s && a + (q.size - 1) + Padding(a, q.align) > U64_MAX
  }

  /** The set cannot serve `q`: no block of it satisfies `q`, or the search gives up on an overflow. */
  ghost predicate CannotProvide(s: iset<int>, q: Request)
    requires q.align > 0
  {
    (exists a :: OverflowsAt(s, q, a)) || (forall a :: !BlockAt(s, q, a))
  }

  /** Whether the search finds something depends on the bytes in the set only, and not on the way they
      are split into entries: an entry fits exactly when the set has a block that satisfies the request. */
  lemma SearchMeaning(es: seq<Range>, q: Request)
    requires WellFormed(es) && q.size > 0 && q.align > 0
    ensures SomeFits(es, q) <==> exists a :: BlockAt(Bytes(es), q, a)
    ensures SomeEndOverflows(es, q) <==> exists a :: OverflowsAt(Bytes(es), q, a)
    ensures CannotProvide(Bytes(es), q) <==> SomeEndOverflows(es, q) || !SomeFits(es, q)
  {
    if i :| 0 <= i < |es| && Fits(es[i], q) {
      AllocationResult(es[i], q);
      assert forall x :: InRange(es[i], x) ==> Covers(es, x);
      assert BlockAt(Bytes(es), q, es[i].start + Padding(es[i].start, q.align));
    }
    if a :| BlockAt(Bytes(es), q, a) { BlockFitsAnEntry(es, q, a); }
    if i :| 0 <= i < |es| && AllocationEnd(es[i], q) > U64_MAX {
      EntriesAreRuns(es, i);
      assert OverflowsAt(Bytes(es), q, es[i].start);
    }
    if a :| OverflowsAt(Bytes(es), q, a) {
      var i :| 0 <= i < |es| && InRange(es[i], a);
      assert InRange(es[i], a - 1) ==> a - 1 in Bytes(es);
      assert es[i].start == a;
    }
  }

  /** The bytes next to an entry are not in the set. */
  lemma EntriesAreRuns(es: seq<Range>, i: int)
    requires WellFormed(es) && 0 <= i < |es|
    ensures es[i].start in Bytes(es) && es[i].start - 1 !in Bytes(es) && es[i].end + 1 !in Bytes(es)
  {
    assert InRange(es[i], es[i].start);
    forall k | 0 <= k < |es| ensures !InRange(es[k], es[i].start - 1) && !InRange(es[k], es[i].end + 1) {
      if k != i { assert !Touches(es[Min(i, k)], es[Max(i, k)]); }
    }
  }

  /** A block lies in a single entry, because entries do not touch. */
  lemma BlockFitsAnEntry(es: seq<Range>, q: Request, a: int)
    requires WellFormed(es) && q.size > 0 && q.align > 0 && BlockAt(Bytes(es), q, a)
    ensures SomeFits(es, q)
  {
    assert InSpan(a, q.size, a) && a in Bytes(es);
    var i :| 0 <= i < |es| && InRange(es[i], a);
    EntriesAreRuns(es, i);
    var next := es[i].end + 1;
    assert next !in Span(a, q.size);
    PaddingIsLeast(es[i].start, q.align, a);
    assert Fits(es[i], q);
  }

  lemma PaddingIsLeast(start: u64, align: u64, a: int)
    requires align > 0 && start <= a && a % align == 0
    ensures start + Padding(start, align) <= a
  {
    var p := start + Padding(start, align);
    assert (p / align - a / align) * align == p - a;
    ProductIsNoSmaller(p / align - a / align, align);
  }

  /** What `allocate_limited` takes out of the set: the block, and the padding in front of it
      when there is less than 512 bytes of it. */
  function Taken(r: Range, q: Request): (t: Range)
    requires q.size > 0 && q.align > 0 && Fits(r, q)
    ensures t.Shaped() && Contains(r, t) && t.end == AllocationEnd(r, q)
  {
    var padding := Padding(r.start, q.align);
    Range(if padding >= 512 then r.start + padding else r.start, AllocationEnd(r, q))
  }

  lemma PowersOfTwoArePositive(n: u64)
    requires CountOnes(n) == 1
    ensures n > 0
  {
  }

  // ---------------------------------------------------------------------------------------
  // List surgery
  // ---------------------------------------------------------------------------------------

  ghost function Without(es: seq<Range>, i: int): seq<Range>
    requires 0 <= i < |es|
  {
    es[..i] + es[i + 1..]
  }

  /** Where entry `k` of the shorter list comes from. */
  ghost function Origin(i: int, k: int): int {
    if k < i then k else k + 1
  }

  /** What slot `k` holds after entry `i` was swapped forward to slot `idx`. */
  ghost function Place(i: int, idx: int, k: int): int {
    if k == idx then i else if k > idx then k else Origin(i, k)
  }

  lemma WithoutAt(es: seq<Range>, i: int, k: int)
    requires 0 <= i < |es| && 0 <= k < |es| - 1
    ensures |Without(es, i)| == |es| - 1 && Without(es, i)[k] == es[Origin(i, k)]
  {
  }

  lemma IsWithout(es: seq<Range>, i: int, fs: seq<Range>)
    requires 0 <= i < |es| && |fs| == |es| - 1
    requires forall k :: 0 <= k < |fs| ==> fs[k] == es[Origin(i, k)]
    ensures fs == Without(es, i)
  {
    forall k | 0 <= k < |fs| ensures fs[k] == Without(es, i)[k] {
      WithoutAt(es, i, k);
    }
  }

  lemma WithoutBytes(es: seq<Range>, i: int, x: int)
    requires 0 <= i < |es|
    ensures Covers(es, x) <==> Covers(Without(es, i), x) || InRange(es[i], x)
  {
    var fs := Without(es, i);
    if k :| 0 <= k < |es| && k != i && InRange(es[k], x) {
      WithoutAt(es, i, if k < i then k else k - 1);
      assert InRange(fs[if k < i then k else k - 1], x);
    }
    if k :| 0 <= k < |fs| && InRange(fs[k], x) {
      WithoutAt(es, i, k);
    }
  }

  lemma WithoutWellFormed(es: seq<Range>, i: int)
    requires 0 <= i < |es| && WellFormed(es)
    ensures WellFormed(Without(es, i))
    ensures forall k :: 0 <= k < |es| - 1 ==> !Overlaps(es[i], Without(es, i)[k])
  {
    var fs := Without(es, i);
    forall k | 0 <= k < |fs| ensures fs[k].Shaped() && !Overlaps(es[i], fs[k]) {
      WithoutAt(es, i, k);
      assert !Touches(es[Min(i, Origin(i, k))], es[Max(i, Origin(i, k))]);
    }
    forall k, l | 0 <= k < l < |fs| ensures !Touches(fs[k], fs[l]) {
      WithoutAt(es, i, k);
      WithoutAt(es, i, l);
    }
  }

  lemma WithoutKeeps(es: seq<Range>, i: int)
    requires 0 <= i < |es| && WellFormed(es)
    ensures WellFormed(Without(es, i))
    ensures Bytes(es) == Bytes(Without(es, i)) + SpanOf(es[i])
  {
    WithoutWellFormed(es, i);
    forall x ensures Covers(es, x) <==> Covers(Without(es, i), x) || InRange(es[i], x) {
      WithoutBytes(es, i, x);
    }
  }

  ghost function Merged(a: Range, b: Range): Range {
    Range(Min(a.start, b.start), Max(a.end, b.end))
  }

  /** Taking entry `i` out and growing `sum` over it loses and adds no byte. */
  lemma MergeStep(es: seq<Range>, i: int, sum: Range)
    requires 0 <= i < |es| && WellFormed(es) && sum.Shaped() && Touches(sum, es[i])
    ensures Merged(sum, es[i]).Shaped() && WellFormed(Without(es, i))
    ensures Bytes(Without(es, i)) + SpanOf(Merged(sum, es[i])) == Bytes(es) + SpanOf(sum)
  {
    WithoutKeeps(es, i);
    TouchesMeaning(sum, es[i]);
    assert SpanOf(Merged(sum, es[i])) == SpanOf(sum) + SpanOf(es[i]);
  }

  lemma AppendKeeps(es: seq<Range>, r: Range)
    requires WellFormed(es) && r.Shaped()
    requires forall i :: 0 <= i < |es| ==> !Touches(r, es[i])
    ensures WellFormed(es + [r])
    ensures Bytes(es + [r]) == Bytes(es) + SpanOf(r)
  {
    var fs := es + [r];
    forall x ensures x in Bytes(fs) <==> x in Bytes(es) || x in SpanOf(r) {
      if x in Bytes(fs) {
        var k :| 0 <= k < |fs| && InRange(fs[k], x);
        if k < |es| { assert InRange(es[k], x); }
      }
      if x in Bytes(es) {
        var k :| 0 <= k < |es| && InRange(es[k], x);
        assert InRange(fs[k], x);
      }
      if x in SpanOf(r) { assert InRange(fs[|es|], x); }
    }
  }

  /** Shrinking entry `i` to `r` takes away exactly the bytes cut off. */
  lemma ShrinkKeeps(es: seq<Range>, i: int, r: Range)
    requires 0 <= i < |es| && WellFormed(es) && r.Shaped() && Contains(es[i], r)
    ensures WellFormed(es[i := r])
    ensures Bytes(es[i := r]) == Bytes(es) - (SpanOf(es[i]) - SpanOf(r))
  {
    var fs := es[i := r];
    forall x ensures x in Bytes(fs) <==> x in Bytes(es) && (x in SpanOf(es[i]) ==> x in SpanOf(r)) {
      if x in Bytes(fs) {
        var k :| 0 <= k < |fs| && InRange(fs[k], x);
        assert InRange(es[k], x);
        if k != i && InRange(es[i], x) { assert false; }
      }
      if x in Bytes(es) && (x in SpanOf(es[i]) ==> x in SpanOf(r)) {
        var k :| 0 <= k < |es| && InRange(es[k], x);
        assert InRange(fs[k], x);
      }
    }
  }

  /** `range` lies strictly inside `r`, so that removing it leaves two pieces. */
  predicate Splits(range: Range, r: Range) {
    r.start < range.start && range.end < r.end
  }

  /** Only one entry can be split, and then nothing else overlaps. */
  lemma SplitIsOnlyOverlap(es: seq<Range>, range: Range, i: int, j: int)
    requires WellFormed(es) && range.Shaped()
    requires 0 <= i < |es| && 0 <= j < |es| && i != j
    requires Splits(range, es[i])
    ensures !Overlaps(range, es[j])
  {
    assert !Touches(es[Min(i, j)], es[Max(i, j)]);
  }

  /** How many entries overlap `range`. */
  ghost function Overlapping(range: Range, es: seq<Range>): nat {
    if es == [] then 0
    else (if Overlaps(range, es[0]) then 1 else 0) + Overlapping(range, es[1..])
  }

  lemma OverlappingConcat(range: Range, a: seq<Range>, b: seq<Range>)
    ensures Overlapping(range, a + b) == Overlapping(range, a) + Overlapping(range, b)
  {
    if a == [] {
      assert a + b == b;
    } else {
      assert (a + b)[1..] == a[1..] + b;
      OverlappingConcat(range, a[1..], b);
    }
  }

  lemma OverlappingAt(range: Range, es: seq<Range>, i: int)
    requires 0 <= i < |es|
    ensures Overlapping(range, es)
         == Overlapping(range, Without(es, i)) + (if Overlaps(range, es[i]) then 1 else 0)
  {
    assert es == es[..i] + ([es[i]] + es[i + 1..]);
    OverlappingConcat(range, es[..i], [es[i]] + es[i + 1..]);
    OverlappingConcat(range, [es[i]], es[i + 1..]);
    OverlappingConcat(range, es[..i], es[i + 1..]);
  }

  lemma OverlappingUpdate(range: Range, es: seq<Range>, i: int, r: Range)
    requires 0 <= i < |es| && Overlaps(range, es[i]) && !Overlaps(range, r)
    ensures Overlapping(range, es[i := r]) == Overlapping(range, es) - 1
  {
    OverlappingAt(range, es, i);
    OverlappingAt(range, es[i := r], i);
    assert Without(es[i := r], i) == Without(es, i);
  }

  ghost predicate SomeTouches(range: Range, es: seq<Range>) {
    exists i :: 0 <= i < |es| && Touches(range, es[i])
  }

  ghost predicate SomeSplits(range: Range, es: seq<Range>) {
    exists i :: 0 <= i < |es| && Splits(range, es[i])
  }

  /** Where a removal stands: `now` still differs from `before` only inside `range`, and an
      entry that has to be split is the only one the removal ever changes. */
  ghost predicate Removing(range: Range, before: seq<Range>, now: seq<Range>) {
    && WellFormed(now)
    && Bytes(now) - SpanOf(range) == Bytes(before) - SpanOf(range)
    && (SomeSplits(range, now) ==> now == before)
    && (SomeSplits(range, before) ==> now == before || |before| < CAPACITY)
    && |now| <= |before| + 1
  }

  lemma NotSplitNoneSplits(es: seq<Range>, range: Range, i: int)
    requires WellFormed(es) && range.Shaped() && 0 <= i < |es|
    requires Overlaps(range, es[i]) && !Splits(range, es[i])
    ensures !SomeSplits(range, es)
  {
    forall k | 0 <= k < |es| ensures !Splits(range, es[k]) {
      if k != i && Splits(range, es[k]) { SplitIsOnlyOverlap(es, range, k, i); }
    }
  }

  /** Deleting an entry that lies inside `range`. */
  lemma DeleteStep(before: seq<Range>, es: seq<Range>, range: Range, i: int)
    requires Removing(range, before, es) && range.Shaped()
    requires 0 <= i < |es| && Overlaps(range, es[i]) && Contains(range, es[i])
    ensures Removing(range, before, Without(es, i))
    ensures Overlapping(range, Without(es, i)) == Overlapping(range, es) - 1
  {
    var fs := Without(es, i);
    WithoutKeeps(es, i);
    OverlappingAt(range, es, i);
    NotSplitNoneSplits(es, range, i);
    forall k | 0 <= k < |fs| ensures !Splits(range, fs[k]) {
      WithoutAt(es, i, k);
    }
  }

  /** Cutting an entry back so that it no longer overlaps `range`. */
  lemma CutStep(before: seq<Range>, es: seq<Range>, range: Range, i: int, r: Range)
    requires Removing(range, before, es) && range.Shaped()
    requires 0 <= i < |es| && Overlaps(range, es[i]) && !Splits(range, es[i])
    requires r.Shaped() && Contains(es[i], r) && !Overlaps(range, r)
    requires forall x :: x in SpanOf(es[i]) && x !in SpanOf(r) ==> x in SpanOf(range)
    ensures Removing(range, before, es[i := r])
    ensures Overlapping(range, es[i := r]) == Overlapping(range, es) - 1
  {
    ShrinkKeeps(es, i, r);
    OverlappingUpdate(range, es, i, r);
    NotSplitNoneSplits(es, range, i);
  }

  /** Splitting an entry in two around `range`. */
  lemma SplitStep(before: seq<Range>, es: seq<Range>, range: Range, i: int, left: Range, right: Range)
    requires Removing(range, before, es) && range.Shaped() && 0 <= i < |es| && Splits(range, es[i])
    requires left == Range(es[i].start, range.start - 1) && right == Range(range.end + 1, es[i].end)
    ensures es == before
    ensures |before| < CAPACITY ==> Removing(range, before, es[i := right] + [left])
    ensures Overlapping(range, es[i := right] + [left]) == Overlapping(range, es) - 1
  {
    hide WellFormed, Bytes, Touches;
    PiecesStandAlone(es, range, i, left, right);
    SplitBytes(es, range, i, left, right);
    OverlappingUpdate(range, es, i, right);
    OverlappingConcat(range, es[i := right], [left]);
  }

  /** The two pieces touch nothing, and nothing is left to split. */
  lemma PiecesStandAlone(es: seq<Range>, range: Range, i: int, left: Range, right: Range)
    requires WellFormed(es) && range.Shaped() && 0 <= i < |es| && Splits(range, es[i])
    requires left == Range(es[i].start, range.start - 1) && right == Range(range.end + 1, es[i].end)
    ensures WellFormed(es[i := right] + [left]) && !SomeSplits(range, es[i := right] + [left])
    ensures Bytes(es[i := right] + [left]) == Bytes(es) - (SpanOf(es[i]) - SpanOf(right)) + SpanOf(left)
  {
    hide Bytes;
    var fs := es[i := right];
    ShrinkKeeps(es, i, right);
    forall k | 0 <= k < |fs| ensures !Touches(left, fs[k]) && !Splits(range, fs[k]) {
      if k != i {
        SplitIsOnlyOverlap(es, range, i, k);
        assert !Touches(es[Min(i, k)], es[Max(i, k)]);
      }
    }
    AppendKeeps(fs, left);
  }

  lemma SplitBytes(es: seq<Range>, range: Range, i: int, left: Range, right: Range)
    requires WellFormed(es) && range.Shaped() && 0 <= i < |es| && Splits(range, es[i])
    requires left == Range(es[i].start, range.start - 1) && right == Range(range.end + 1, es[i].end)
    ensures Bytes(es) - (SpanOf(es[i]) - SpanOf(right)) + SpanOf(left) - SpanOf(range) == Bytes(es) - SpanOf(range)
  {
    forall x | InRange(left, x) ensures Covers(es, x) {
      assert InRange(es[i], x);
    }
  }

  lemma NoOverlapNoBytes(es: seq<Range>, range: Range)
    requires range.Shaped()
    requires forall k :: 0 <= k < |es| ==> !Overlaps(range, es[k])
    ensures Bytes(es) !! SpanOf(range)
  {
  }

  // ---------------------------------------------------------------------------------------
  // The set
  // ---------------------------------------------------------------------------------------

  const CAPACITY: nat := 256

  class RangeSet {
    const ranges: array<Range>
    var used: nat

    ghost predicate Valid()
      reads this, ranges
    {
      && ranges.Length == CAPACITY && used <= CAPACITY
      && WellFormed(Entries())
    }

    ghost function Entries(): seq<Range>
      requires used <= ranges.Length
      reads this, ranges
    {
      ranges[..used]
    }

    /** The bytes in the set. */
    ghost function Content(): iset<int>
      requires used <= ranges.Length
      reads this, ranges
    {
      Bytes(Entries())
    }

    constructor ()
      ensures Valid() && Entries() == [] && Content() == iset{} && fresh(ranges) && ranges.Length == 256
    {
      ranges := new Range[CAPACITY](_ => Range(0, 0));
      used := 0;
    }

    method Clear()
      requires Valid()
      modifies `used
      ensures Valid() && Entries() == [] && Content() == iset{}
    {
      used := 0;
    }

    /** Push an entry; the source panics when all 256 slots are in use. */
    method AddEntry(range: Range) returns (ok: bool)
      requires ranges.Length == CAPACITY && used <= CAPACITY
      modifies `used, ranges
      ensures ok <==> old(used) < CAPACITY
      ensures ok ==> used == old(used) + 1 && Entries() == old(Entries()) + [range]
      ensures !ok ==> used == old(used) && Entries() == old(Entries())
    {
      if used >= CAPACITY { return false; }
      ranges[used] := range;
      used := used + 1;
      return true;
    }

    /** Delete an entry by swapping it, step by step, to the end of the list. */
    method DeleteEntry(toDelete: nat)
      requires ranges.Length == CAPACITY && toDelete < used <= CAPACITY
      modifies `used, ranges
      ensures used == old(used) - 1
      ensures Entries() == Without(old(Entries()), toDelete)
    {
      ghost var before := Entries();
      for idx := toDelete to used - 1
        modifies ranges
        invariant forall k :: 0 <= k < used ==> ranges[k] == before[Place(toDelete, idx, k)]
      {
        ranges[idx], ranges[idx + 1] := ranges[idx + 1], ranges[idx];
      }
      used := used - 1;
      IsWithout(before, toDelete, Entries());
    }

    /** Insert an inclusive range: set union, or a panic exactly when the set is full and
        nothing in it can be merged with the range. */
    method Insert(range: Range) returns (ok: bool)
      requires Valid() && range.Shaped()
      modifies `used, ranges
      ensures ok <==> (old(used) < CAPACITY || SomeTouches(range, old(Entries())))
      ensures ok ==> Valid() && Content() == old(Content()) + SpanOf(range)
      ensures used <= old(used) + 1 && (!ok ==> used == CAPACITY)
      ensures !ok ==> Valid() && Entries() == old(Entries())
    {
      ghost var before := Entries();
      var sum := range;
      ghost var whole := Content() + SpanOf(range);
      label mergeLoop: while true
        invariant Valid() && sum.Shaped() && used <= |before|
        invariant Content() + SpanOf(sum) == whole
        invariant if used < |before| then SomeTouches(range, before) else Entries() == before && sum == range
        decreases used
      {
        for idx := 0 to used
          invariant forall k :: 0 <= k < idx ==> !Touches(sum, Entries()[k])
        {
          var current := ranges[idx];
          assert current == Entries()[idx];
          if !Touches(sum, current) { continue; }
          MergeStep(Entries(), idx, sum);
          sum := Range(Min(sum.start, current.start), Max(sum.end, current.end));
          DeleteEntry(idx);
          continue mergeLoop;
        }
        break;
      }
      AppendKeeps(Entries(), sum);
      ok := AddEntry(sum);
    }

    /** Remove an inclusive range: set difference, or a panic exactly when the set is full and
        one entry sticks out on both sides. */
    method Remove(range: Range) returns (ok: bool)
      requires Valid() && range.Shaped()
      modifies `used, ranges
      ensures ok <==> !(old(used) == CAPACITY && SomeSplits(range, old(Entries())))
      ensures ok ==> Valid() && Content() == old(Content()) - SpanOf(range)
      ensures used <= old(used) + 1 && (!ok ==> used == CAPACITY)
    {
      ghost var before := Entries();
      label subtractLoop: while true
        invariant Valid() && Removing(range, before, Entries())
        decreases Overlapping(range, Entries())
      {
        ghost var count, n := Overlapping(range, Entries()), used;
        for idx := 0 to used
          invariant Valid() && used == n && Removing(range, before, Entries())
          invariant forall k :: 0 <= k < idx ==> !Overlaps(range, Entries()[k])
          invariant Overlapping(range, Entries()) <= count
        {
          ghost var es := Entries();
          var current := ranges[idx];
          assert current == es[idx];

          if !Overlaps(range, current) { continue; }

          if Contains(range, current) {
            DeleteStep(before, es, range, idx);
            DeleteEntry(idx);
            continue subtractLoop;
          }

          if range.start <= current.start {
            CutStep(before, es, range, idx, Range(SaturatingInc(range.end), current.end));
            ranges[idx] := Range(SaturatingInc(range.end), current.end);
          } else if range.end >= current.end {
            CutStep(before, es, range, idx, Range(current.start, SaturatingDec(range.start)));
            ranges[idx] := Range(current.start, SaturatingDec(range.start));
          } else {
            var left := Range(current.start, SaturatingDec(range.start));
            var right := Range(SaturatingInc(range.end), current.end);
            SplitStep(before, es, range, idx, left, right);
            ranges[idx] := right;
            assert Entries() == es[idx := right];
            ok := AddEntry(left);
            if !ok { return; }
            continue subtractLoop;
          }
        }
        break;
      }
      ok := true;
      NoOverlapNoBytes(Entries(), range);
    }

    /** Best-fit aligned allocation. `best` names the entry the block is cut from. */
    method AllocateLimited(size: u64, align: u64, maxAddress: Option<u64>, usizeMax: u64)
      returns (r: Attempt<u64>, ghost best: int)
      requires Valid()
      modifies `used, ranges
      ensures used <= old(used) + 1 && (r.Panicked? ==> used == CAPACITY)
      ensures var q, es := RequestFor(size, align, maxAddress, usizeMax), old(Entries());
        && q == Request(size, align, if maxAddress.Some? && maxAddress.value < usizeMax then maxAddress.value else usizeMax)
        && (r.Refused? <==> !Sensible(q) || SomeEndOverflows(es, q) || !SomeFits(es, q))
        && (r.Refused? ==> Valid() && Entries() == es)
        && (!r.Refused? ==>
              && IsBest(es, q, best)
              && (r.Panicked? <==> old(used) == CAPACITY && Splits(Taken(es[best], q), es[best])))
        && (r.Done? ==>
              && Valid()
              && r.value == es[best].start + Padding(es[best].start, align)
              && Content() == old(Content()) - SpanOf(Taken(es[best], q)))
    {
      ghost var q, es := RequestFor(size, align, maxAddress, usizeMax), Entries();
      best := -1;
      if size == 0 { return Refused, best; }
      if CountOnes(align) != 1 { return Refused, best; }
      PowersOfTwoArePositive(align);
      var found: Attempt<Candidate>;
      found, best := FindBest(RequestFor(size, align, maxAddress, usizeMax));
      if found.Refused? { return Refused, best; }
      var Candidate(padding, start, end, _) := found.value;
      var range := Range(if padding >= 512 then start + padding else start, end);
      OnlyItsOwnEntrySplits(es, range, best);
      var ok := Remove(range);
      if !ok { return Panicked, best; }
      return Done(start + padding), best;
    }

    /** The search loop of the allocator. */
    method FindBest(q: Request) returns (r: Attempt<Candidate>, ghost best: int)
      requires Valid() && q.size > 0 && q.align > 0
      ensures !r.Panicked?
      ensures r.Refused? <==> SomeEndOverflows(Entries(), q) || !SomeFits(Entries(), q)
      ensures r.Done? ==> IsBest(Entries(), q, best) && r.value == CandidateAt(Entries()[best], q)
    {
      hide Padding, WellFormed, Beats, Range.Size;
      EntriesAreShaped(Entries());
      var candidate: Option<Candidate> := None;
      best := -1;
      for idx := 0 to used
        invariant forall k :: 0 <= k < idx ==> AllocationEnd(Entries()[k], q) <= U64_MAX
        invariant IsBestSoFar(Entries(), q, idx, best)
        invariant candidate == if best == -1 then None else Some(CandidateAt(Entries()[best], q))
      {
        var current := ranges[idx];
        assert current == Entries()[idx];
        BestStep(Entries(), q, idx, best);
        if best != -1 { BeatsMeaning(current, Entries()[best], q.align); }
        var padding := Padding(current.start, q.align);

        var unpadded := CheckedAdd(current.start, q.size - 1);
        if unpadded.None? { assert AllocationEnd(Entries()[idx], q) > U64_MAX; return Refused, best; }
        var padded := CheckedAdd(unpadded.value, padding);
        if padded.None? { assert AllocationEnd(Entries()[idx], q) > U64_MAX; return Refused, best; }
        var end := padded.value;

        if end > current.end || end > q.limit { continue; }

        var replace := if candidate.None? then true
                       else if candidate.value.padding == padding then candidate.value.size > current.Size()
                       else candidate.value.padding > padding;
        if replace {
          candidate := Some(Candidate(padding, current.start, end, current.Size()));
          best := idx;
        }
      }
      if candidate.None? { return Refused, best; }
      return Done(candidate.value), best;
    }
  }

  datatype Candidate = Candidate(padding: u64, start: u64, end: u64, size: u64)

  ghost function CandidateAt(r: Range, q: Request): Candidate
    requires q.align > 0 && q.size > 0 && r.Shaped() && Fits(r, q)
  {
    Candidate(Padding(r.start, q.align), r.start, AllocationEnd(r, q), r.Size())
  }

  /** The highest address a block may use: never more than a pointer can hold. */
  function LimitOf(maxAddress: Option<u64>, usizeMax: u64): u64 {
    Min(if maxAddress.Some? then maxAddress.value else usizeMax, usizeMax)
  }

  function RequestFor(size: u64, align: u64, maxAddress: Option<u64>, usizeMax: u64): Request {
    Request(size, align, LimitOf(maxAddress, usizeMax))
  }

  /** A range inside entry `i` can split no other entry. */
  lemma OnlyItsOwnEntrySplits(es: seq<Range>, range: Range, i: int)
    requires WellFormed(es) && range.Shaped() && 0 <= i < |es| && Contains(es[i], range)
    ensures SomeSplits(range, es) <==> Splits(range, es[i])
  {
    forall k | 0 <= k < |es| && k != i ensures !Splits(range, es[k]) {
      assert !Touches(es[Min(i, k)], es[Max(i, k)]);
    }
  }

  // ---------------------------------------------------------------------------------------
  // What an allocation gives its caller
  // ---------------------------------------------------------------------------------------

  lemma BestIsUnique(es: seq<Range>, q: Request, i: int, j: int)
    requires q.align > 0 && forall k :: 0 <= k < |es| ==> es[k].Shaped()
    requires IsBest(es, q, i) && IsBest(es, q, j)
    ensures i == j
  {
  }

  /** The bytes of padding that leave the set together with the block. */
  function Wasted(r: Range, q: Request): (w: u64)
    requires q.align > 0
    ensures w < 512
  {
    var padding := Padding(r.start, q.align);
    if padding < 512 then padding else 0
  }

  /** The block is aligned, inside its entry and below the limit; what leaves the set is the
      block and fewer than 512 bytes in front of it. */
  lemma AllocationResult(r: Range, q: Request)
    requires r.Shaped() && q.size > 0 && q.align > 0 && Fits(r, q)
    ensures var address := r.start + Padding(r.start, q.align);
      && address % q.align == 0 && address + q.size - 1 <= q.limit
      && Span(address, q.size) <= SpanOf(r)
      && SpanOf(Taken(r, q)) == Span(address - Wasted(r, q), Wasted(r, q)) + Span(address, q.size)
      && SpanOf(Taken(r, q)) == Span(if address - r.start < 512 then r.start else address, q.size + (if address - r.start < 512 then address - r.start else 0))
  {
  }

  /** A set of bytes that consists of whole 4096-byte pages. */
  ghost predicate Paged(s: iset<int>) {
    forall x: int :: x in s <==> x / 4096 * 4096 in s
  }

  /** In a set of whole pages every entry starts on a page boundary. */
  lemma PagedEntriesStartOnPages(es: seq<Range>, i: int)
    requires WellFormed(es) && Paged(Bytes(es)) && 0 <= i < |es|
    ensures es[i].start % 4096 == 0
  {
    var s := es[i].start;
    if s % 4096 != 0 {
      assert InRange(es[i], s) && s in Bytes(es);
      assert (s - 1) / 4096 == s / 4096;
      assert s - 1 in Bytes(es);
      var k :| 0 <= k < |es| && InRange(es[k], s - 1);
      assert Touches(es[k], es[i]) && Touches(es[i], es[k]);
    }
  }

  /** Page-aligned requests waste nothing in a set of whole pages. */
  lemma PagedWastesNothing(r: Range, q: Request)
    requires q.align > 0 && q.align % 4096 == 0 && r.start % 4096 == 0
    ensures Wasted(r, q) == 0
  {
    var m := q.align / 4096;
    var s := r.start / 4096;
    var padding := Padding(r.start, q.align);
    var k := (r.start + padding) / q.align;
    assert r.start + padding == k * (m * 4096) == (k * m) * 4096;
    assert padding == (k * m - s) * 4096;
  }
}
