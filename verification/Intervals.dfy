/** The two interval computations of src/fuzzing.rs on region lists. */
module Intervals {
  import opened Words
  import opened Regions

  /** A half-open range of addresses. */
  datatype Span = Span(start: U64, end: U64)

  predicate In(x: Span, a: int) {
    x.start <= a < x.end
  }

  ghost predicate InSome(xs: seq<Span>, a: int) {
    exists x :: x in xs && In(x, a)
  }

  /** Ranges in [lo, hi), in ascending order, apart. */
  ghost predicate Ascending(xs: seq<Span>, lo: int, hi: int) {
    && (forall x :: x in xs ==> lo <= x.start <= x.end <= hi)
    && (forall i, j :: 0 <= i < j < |xs| ==> xs[i].end <= xs[j].start)
  }

  /** From a page to a page, or to the saturated end of the address space. */
  predicate OnPages(x: Span) {
    Aligned(x.start) && (Aligned(x.end) || x.end == MAX_U64)
  }

  /** What is left of a range once a region is taken out. */
  function Cut(x: Span, r: Region): seq<Span> {
    if SatEnd(r) <= x.start || r.start >= x.end then [x]
    else
      (if x.start < r.start then [Span(x.start, r.start)] else []) +
      (if SatEnd(r) < x.end then [Span(SatEnd(r), x.end)] else [])
  }

  function CutAll(xs: seq<Span>, r: Region): seq<Span> {
    if xs == [] then [] else CutAll(xs[..|xs| - 1], r) + Cut(xs[|xs| - 1], r)
  }

  lemma CutAllNext(xs: seq<Span>, k: nat, r: Region)
    requires k < |xs|
    ensures CutAll(xs[..k + 1], r) == CutAll(xs[..k], r) + Cut(xs[k], r)
  {
    assert xs[..k + 1][..k] == xs[..k];
  }

  lemma InConcat(xs: seq<Span>, ys: seq<Span>, a: int)
    ensures InSome(xs + ys, a) <==> InSome(xs, a) || InSome(ys, a)
  {
    assert forall x :: x in xs + ys <==> x in xs || x in ys;
  }

  lemma CutIs(x: Span, r: Region, a: int)
    requires x.start <= x.end
    ensures InSome(Cut(x, r), a) <==> In(x, a) && !Has(r, a)
  {
    if SatEnd(r) <= x.start || r.start >= x.end {
      assert forall y :: y in [x] <==> y == x;
    } else {
      var left := if x.start < r.start then [Span(x.start, r.start)] else [];
      var right := if SatEnd(r) < x.end then [Span(SatEnd(r), x.end)] else [];
      InConcat(left, right, a);
      assert InSome(left, a) <==> x.start <= a < r.start by {
        if x.start < r.start { assert Span(x.start, r.start) in left; }
      }
      assert InSome(right, a) <==> SatEnd(r) <= a < x.end by {
        if SatEnd(r) < x.end { assert Span(SatEnd(r), x.end) in right; }
      }
    }
  }

  lemma InInit(xs: seq<Span>, a: int)
    requires xs != []
    ensures InSome(xs, a) <==> InSome(xs[..|xs| - 1], a) || In(xs[|xs| - 1], a)
  {
    assert xs == xs[..|xs| - 1] + [xs[|xs| - 1]];
    assert forall x :: x in xs <==> x in xs[..|xs| - 1] || x == xs[|xs| - 1];
  }

  lemma {:induction false} CutAllIs(xs: seq<Span>, r: Region, lo: int, hi: int, a: int)
    requires Ascending(xs, lo, hi)
    ensures InSome(CutAll(xs, r), a) <==> InSome(xs, a) && !Has(r, a)
  {
    if xs != [] {
      var init, last := xs[..|xs| - 1], xs[|xs| - 1];
      assert forall x :: x in init ==> x in xs;
      CutAllIs(init, r, lo, hi, a);
      CutIs(last, r, a);
      InConcat(CutAll(init, r), Cut(last, r), a);
      InInit(xs, a);
    }
  }

  lemma AscendingConcat(xs: seq<Span>, ys: seq<Span>, lo: int, mid: int, hi: int)
    requires lo <= mid <= hi && Ascending(xs, lo, mid) && Ascending(ys, mid, hi)
    ensures Ascending(xs + ys, lo, hi)
  {
    var zs := xs + ys;
    forall i, j | 0 <= i < j < |zs| ensures zs[i].end <= zs[j].start {
      if i < |xs| <= j {
        assert zs[i] in xs && zs[j] in ys;
      } else if |xs| <= i {
        assert zs[i] == ys[i - |xs|] && zs[j] == ys[j - |xs|];
      }
    }
  }

  lemma {:induction false} CutAllAscending(xs: seq<Span>, r: Region, lo: int, hi: int)
    requires Ascending(xs, lo, hi) && lo <= hi
    ensures Ascending(CutAll(xs, r), lo, hi)
    ensures (forall x :: x in xs ==> OnPages(x)) && Sized(r) ==> forall x :: x in CutAll(xs, r) ==> OnPages(x)
  {
    if xs != [] {
      var init, last := xs[..|xs| - 1], xs[|xs| - 1];
      assert last in xs;
      assert forall x :: x in init ==> x in xs;
      forall x | x in init ensures x.end <= last.start {
        var i :| 0 <= i < |init| && init[i] == x;
        assert xs[i].end <= xs[|xs| - 1].start;
      }
      CutAllAscending(init, r, lo, last.start);
      CutAscending(last, r);
      AscendingConcat(CutAll(init, r), Cut(last, r), lo, last.start, last.end);
    }
  }

  lemma CutAscending(x: Span, r: Region)
    requires x.start <= x.end
    ensures Ascending(Cut(x, r), x.start, x.end)
    ensures OnPages(x) && Sized(r) ==> forall y :: y in Cut(x, r) ==> OnPages(y)
  {
    AlignedSums(if Aligned(r.start) then r.start else 0, if Aligned(r.size) then r.size else 0);
  }

  /** A range as the callers of the engine want it. */
  datatype Segment = Segment(start: U64, size: U64)

  /** A page start and whole pages, or the rest of the address space but for its last byte. */
  predicate PageSegment(p: Segment) {
    Aligned(p.start) && (Aligned(p.size) || p.start + p.size == MAX_U64)
  }

  predicate InSegment(p: Segment, a: int) {
    p.start <= a < p.start + p.size
  }

  ghost predicate InSegments(ps: seq<Segment>, a: int) {
    exists p :: p in ps && InSegment(p, a)
  }

  ghost predicate SegmentsAscending(ps: seq<Segment>, lo: int, hi: int) {
    && (forall p :: p in ps ==> 0 < p.size && lo <= p.start && p.start + p.size <= hi)
    && (forall i, j :: 0 <= i < j < |ps| ==> ps[i].start + ps[i].size as int <= ps[j].start)
  }

  /** The addresses of [start, start + size) outside every region of the snapshot, for any list, in
      any order and with any overlaps: exactly these, as non-empty ascending segments. */
  ghost predicate IsDifference(ps: seq<Segment>, start: U64, size: U64, snapshot: seq<Region>) {
    && SegmentsAscending(ps, start, SatAdd(start, size))
    && (forall a :: InSegments(ps, a) <==> start <= a < SatAdd(start, size) && !Covered(snapshot, a))
  }

  function Lengths(xs: seq<Span>): seq<Segment> {
    if xs == [] then []
    else
      var size := SatSub(xs[0].end, xs[0].start);
      (if size == 0 then [] else [Segment(xs[0].start, size)]) + Lengths(xs[1..])
  }

  lemma AscendingTail(xs: seq<Span>, lo: int, hi: int)
    requires Ascending(xs, lo, hi) && xs != []
    ensures xs[0] in xs && Ascending(xs[1..], xs[0].end, hi)
  {
    forall x | x in xs[1..] ensures xs[0].end <= x.start <= x.end <= hi {
      var k :| 0 <= k < |xs[1..]| && xs[1..][k] == x;
      assert xs[0].end <= xs[k + 1].start && xs[k + 1] in xs;
    }
    forall i, j | 0 <= i < j < |xs[1..]| ensures xs[1..][i].end <= xs[1..][j].start {
      assert xs[i + 1].end <= xs[j + 1].start;
    }
  }

  lemma ConsAscending(p: Segment, ps: seq<Segment>, lo: int, hi: int)
    requires 0 < p.size && lo <= p.start && p.start + p.size <= hi
    requires SegmentsAscending(ps, p.start + p.size, hi)
    ensures SegmentsAscending([p] + ps, lo, hi)
  {
    var qs := [p] + ps;
    assert forall q :: q in qs <==> q == p || q in ps;
    forall i, j | 0 <= i < j < |qs| ensures qs[i].start + qs[i].size as int <= qs[j].start {
      assert qs[j] == ps[j - 1] && qs[j] in ps;
    }
  }

  lemma LengthsCons(xs: seq<Span>, a: int)
    requires xs != [] && xs[0].start <= xs[0].end
    ensures InSome(xs, a) <==> In(xs[0], a) || InSome(xs[1..], a)
    ensures InSegments(Lengths(xs), a) <==> In(xs[0], a) || InSegments(Lengths(xs[1..]), a)
  {
    assert forall x :: x in xs <==> x == xs[0] || x in xs[1..];
    var first := Segment(xs[0].start, SatSub(xs[0].end, xs[0].start));
    assert InSegment(first, a) <==> In(xs[0], a);
    assert forall p :: p in Lengths(xs) <==> (p == first && first.size != 0) || p in Lengths(xs[1..]);
  }

  lemma {:induction false} LengthsAscend(xs: seq<Span>, lo: int, hi: int)
    requires Ascending(xs, lo, hi)
    ensures SegmentsAscending(Lengths(xs), lo, hi)
  {
    if xs != [] {
      AscendingTail(xs, lo, hi);
      LengthsAscend(xs[1..], xs[0].end, hi);
      var first := Segment(xs[0].start, SatSub(xs[0].end, xs[0].start));
      if first.size != 0 {
        ConsAscending(first, Lengths(xs[1..]), lo, hi);
      }
    }
  }

  lemma {:induction false} LengthsCover(xs: seq<Span>, lo: int, hi: int, a: int)
    requires Ascending(xs, lo, hi)
    ensures InSegments(Lengths(xs), a) <==> InSome(xs, a)
  {
    if xs != [] {
      AscendingTail(xs, lo, hi);
      LengthsCover(xs[1..], xs[0].end, hi, a);
      LengthsCons(xs, a);
    }
  }

  lemma {:induction false} LengthsOnPages(xs: seq<Span>)
    requires forall x :: x in xs ==> OnPages(x) && x.start <= x.end
    ensures forall p :: p in Lengths(xs) ==> PageSegment(p)
  {
    if xs != [] {
      LengthsOnPages(xs[1..]);
      assert xs[0] in xs && OnPages(xs[0]);
      if Aligned(xs[0].end) {
        AlignedSums(xs[0].end, xs[0].start);
      }
    }
  }

  /** What is left of [lo, hi) once the first i regions are taken out. */
  ghost predicate Remaining(pending: seq<Span>, snapshot: seq<Region>, i: nat, lo: U64, hi: U64)
    requires i <= |snapshot|
  {
    && Ascending(pending, lo, hi)
    && (forall a :: InSome(pending, a) <==> lo <= a < hi && !Covered(snapshot[..i], a))
    && (OnPages(Span(lo, hi)) && AllSized(snapshot) ==> forall x :: x in pending ==> OnPages(x))
  }

  lemma AllRemains(snapshot: seq<Region>, lo: U64, hi: U64)
    requires lo <= hi
    ensures Remaining([Span(lo, hi)], snapshot, 0, lo, hi)
  {
    assert forall x :: x in [Span(lo, hi)] <==> x == Span(lo, hi);
    assert !exists r :: r in snapshot[..0];
  }

  lemma CutStepCovers(pending: seq<Span>, snapshot: seq<Region>, i: nat, lo: U64, hi: U64, a: int)
    requires i < |snapshot| && Remaining(pending, snapshot, i, lo, hi)
    ensures InSome(CutAll(pending, snapshot[i]), a) <==> lo <= a < hi && !Covered(snapshot[..i + 1], a)
  {
    CutAllIs(pending, snapshot[i], lo, hi, a);
    assert snapshot[..i + 1] == snapshot[..i] + [snapshot[i]];
    CoveredByAppend(snapshot[..i], snapshot[i], a);
  }

  lemma CutStep(pending: seq<Span>, snapshot: seq<Region>, i: nat, lo: U64, hi: U64)
    requires i < |snapshot| && lo <= hi && Remaining(pending, snapshot, i, lo, hi)
    ensures Remaining(CutAll(pending, snapshot[i]), snapshot, i + 1, lo, hi)
  {
    CutAllAscending(pending, snapshot[i], lo, hi);
    forall a ensures InSome(CutAll(pending, snapshot[i]), a) <==> lo <= a < hi && !Covered(snapshot[..i + 1], a) {
      CutStepCovers(pending, snapshot, i, lo, hi, a);
    }
  }

  lemma NothingMissed(pending: seq<Span>, snapshot: seq<Region>, i: nat, lo: U64, hi: U64)
    requires i <= |snapshot| && (i < |snapshot| ==> pending == []) && Remaining(pending, snapshot, i, lo, hi)
    ensures forall a :: InSome(pending, a) <==> lo <= a < hi && !Covered(snapshot, a)
  {
    if i == |snapshot| {
      assert snapshot[..i] == snapshot;
    } else {
      forall a ensures lo <= a < hi ==> Covered(snapshot, a) {
        assert !InSome(pending, a);
        assert forall r :: r in snapshot[..i] ==> r in snapshot;
      }
    }
  }

  lemma DifferenceIs(pending: seq<Span>, snapshot: seq<Region>, i: nat, start: U64, size: U64)
    requires i <= |snapshot| && (i < |snapshot| ==> pending == [])
    requires Remaining(pending, snapshot, i, start, SatAdd(start, size))
    ensures IsDifference(Lengths(pending), start, size, snapshot)
    ensures OnPages(Span(start, SatAdd(start, size))) && AllSized(snapshot) ==>
      forall p :: p in Lengths(pending) ==> PageSegment(p)
  {
    var end := SatAdd(start, size);
    NothingMissed(pending, snapshot, i, start, end);
    LengthsAscend(pending, start, end);
    forall a ensures InSegments(Lengths(pending), a) <==> start <= a < end && !Covered(snapshot, a) {
      LengthsCover(pending, start, end, a);
    }
    if OnPages(Span(start, end)) && AllSized(snapshot) {
      LengthsOnPages(pending);
    }
  }

  method SubtractSnapshotCoverage(start: U64, size: U64, snapshot: seq<Region>) returns (out: seq<Segment>)
    ensures IsDifference(out, start, size, snapshot)
    ensures OnPages(Span(start, SatAdd(start, size))) && AllSized(snapshot) ==>
      forall p :: p in out ==> PageSegment(p)
  {
    var end := SatAdd(start, size);
    var pending := [Span(start, end)];
    AllRemains(snapshot, start, end);
    var i := 0;
    while i < |snapshot|
      invariant 0 <= i <= |snapshot| && Remaining(pending, snapshot, i, start, end)
    {
      var region := snapshot[i];
      var coverStart, coverEnd := region.start, SatEnd(region);
      var next: seq<Span> := [];
      for k := 0 to |pending|
        invariant next == CutAll(pending[..k], region)
      {
        var segment := pending[k];
        ghost var before := next;
        if coverEnd <= segment.start || coverStart >= segment.end {
          next := next + [segment];
        } else {
          if segment.start < coverStart {
            next := next + [Span(segment.start, coverStart)];
          }
          if coverEnd < segment.end {
            next := next + [Span(coverEnd, segment.end)];
          }
        }
        assert next == before + Cut(segment, region);
        CutAllNext(pending, k, region);
      }
      assert pending[..|pending|] == pending;
      CutStep(pending, snapshot, i, start, end);
      pending := next;
      i := i + 1;
      if pending == [] {
        break;
      }
    }
    DifferenceIs(pending, snapshot, i, start, size);
    out := Lengths(pending);
  }

  // ---- is_range_mapped

  ghost predicate SortedByStart(rs: seq<Region>) {
    forall i, j :: 0 <= i < j < |rs| ==> rs[i].start <= rs[j].start
  }

  lemma HeadIsLeast(rs: seq<Region>)
    requires SortedByStart(rs) && rs != []
    ensures forall q :: q in rs[1..] ==> rs[0].start <= q.start
  {
    forall q | q in rs[1..] ensures rs[0].start <= q.start {
      var k :| 0 <= k < |rs[1..]| && rs[1..][k] == q;
      assert rs[0].start <= rs[k + 1].start;
    }
  }

  function Insert(r: Region, rs: seq<Region>): (out: seq<Region>)
    requires SortedByStart(rs)
    ensures SortedByStart(out) && |out| == |rs| + 1
    ensures forall q :: q in out <==> q == r || q in rs
  {
    if rs == [] || r.start <= rs[0].start then [r] + rs
    else
      assert forall q :: q in rs <==> q == rs[0] || q in rs[1..];
      HeadIsLeast(rs);
      var rest := Insert(r, rs[1..]);
      assert forall j :: 0 <= j < |rest| ==> rest[j] in rest;
      [rs[0]] + rest
  }

  /** The list sorted by start address. */
  function Sorted(rs: seq<Region>): (out: seq<Region>)
    ensures SortedByStart(out) && |out| == |rs|
    ensures forall r :: r in out <==> r in rs
  {
    if rs == [] then []
    else
      assert forall r :: r in rs <==> r == rs[0] || r in rs[1..];
      Insert(rs[0], Sorted(rs[1..]))
  }

  /** For a non-empty range the answer is right whatever the order and the overlaps of the list. */
  method IsRangeMapped(rs: seq<Region>, start: U64, size: U64) returns (mapped: bool)
    ensures 0 < size ==> (mapped <==> forall a :: start <= a < SatAdd(start, size) ==> Covered(rs, a))
  {
    var end := SatAdd(start, size);
    var cursor := start;
    var sorted := Sorted(rs);
    for i := 0 to |sorted|
      invariant start <= cursor <= MAX_U64
      invariant 0 < size ==> cursor < end || cursor == start == MAX_U64
      invariant forall a :: start <= a < cursor ==> Covered(rs, a)
      invariant forall k :: 0 <= k < i ==> SatEnd(sorted[k]) <= cursor
    {
      var region := sorted[i];
      if SatEnd(region) <= cursor {
        continue;
      }
      if region.start > cursor {
        if 0 < size {
          NotCovered(rs, sorted, i, cursor);
          assert start <= cursor < end;
        }
        return false;
      }
      assert region in rs;
      forall a | cursor <= a < SatEnd(region) ensures Covered(rs, a) {
        assert Has(region, a);
      }
      cursor := if SatEnd(region) < end then SatEnd(region) else end;
      if cursor >= end {
        return true;
      }
    }
    mapped := cursor >= end;
    if 0 < size && cursor < end {
      NotCovered(rs, sorted, |sorted|, cursor);
      assert start <= cursor < end;
    }
  }

  lemma NotCovered(rs: seq<Region>, sorted: seq<Region>, i: nat, cursor: int)
    requires i <= |sorted| && cursor < MAX_U64 && SortedByStart(sorted)
    requires forall r :: r in sorted <==> r in rs
    requires forall k :: 0 <= k < i ==> SatEnd(sorted[k]) <= cursor
    requires i < |sorted| ==> cursor < sorted[i].start
    ensures !Covered(rs, cursor)
  {
    forall r | r in rs ensures !Has(r, cursor) {
      assert r in sorted;
      var k :| 0 <= k < |sorted| && sorted[k] == r;
    }
  }
}
