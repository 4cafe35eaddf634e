/** Snapshot and restore of src/fuzzing.rs. */
module Fuzzing {
  import opened Words
  import opened Regions
  import opened Engine
  import opened Emulator
  import opened AddressSpace
  import opened Tracking
  import opened Intervals

  /** The bytes of one region saved at capture. */
  datatype Saved = Saved(start: U64, data: seq<Byte>)

  datatype Snapshot = Snapshot(context: Context, regions: seq<Region>, writable: seq<Saved>, guest: GuestState)

  // ---- the layout

  /** A region list of whole pages without overlaps. */
  ghost predicate Layout(rs: seq<Region>) {
    AllSized(rs) && Disjoint(rs)
  }

  predicate Whole(cells: Cells, r: Region) {
    AllMapped(cells, r.start, r.size)
  }

  predicate Gone(cells: Cells, r: Region) {
    NoneMapped(cells, r.start, r.size)
  }

  /** Every address of the region is on record, up to its saturated end. */
  ghost predicate Recorded(rs: seq<Region>, r: Region) {
    forall a :: r.start <= a < SatEnd(r) ==> Covered(rs, a)
  }

  /** Every snapshot region is on record throughout or unmapped throughout, and the last page is not in
      use unless it is in the snapshot. */
  ghost predicate Restorable(s: Space, snap: seq<Region>) {
    && (forall r :: r in snap ==> Recorded(s.regions, r) || Gone(s.cells, r))
    && (Covered(s.regions, LAST_PAGE) ==> Covered(snap, LAST_PAGE))
  }

  /** The engine maps what the list says, with the protections it says. */
  ghost predicate InForce(cells: Cells, rs: seq<Region>) {
    forall a :: Covered(rs, a) ==> a in cells && cells[a].prot == Tag(rs, a).value.0
  }

  /** An address the first loop leaves mapped: it is in the snapshot, or it is not on record. */
  ghost predicate Stays(was: Space, snap: seq<Region>, a: int) {
    a in was.cells && (Covered(was.regions, a) ==> Covered(snap, a))
  }

  /** The engine once the first i snapshot regions are in place: recorded protection, and zero in fresh
      memory. */
  ghost function LaidOut(was: Space, snap: seq<Region>, i: nat): Cells
    requires i <= |snap|
  {
    map a | 0 <= a <= MAX_U64 && (Covered(snap[..i], a) || Stays(was, snap, a)) ::
      if Covered(snap[..i], a) then Cell(Tag(snap[..i], a).value.0, if a in was.cells then was.cells[a].byte else 0)
      else was.cells[a]
  }

  /** The engine after a successful restore of the layout. */
  ghost function Restored(was: Space, snap: seq<Region>): Cells {
    LaidOut(was, snap, |snap|)
  }

  lemma CoveredPrefix(snap: seq<Region>, i: nat, a: int)
    requires i < |snap|
    ensures Covered(snap[..i + 1], a) <==> Covered(snap[..i], a) || Has(snap[i], a)
    ensures Covered(snap[..i], a) ==> Covered(snap, a)
    ensures Has(snap[i], a) ==> Covered(snap, a)
  {
    assert snap[..i + 1] == snap[..i] + [snap[i]];
    CoveredByAppend(snap[..i], snap[i], a);
    assert forall r :: r in snap[..i] ==> r in snap;
  }

  lemma TagPrefix(snap: seq<Region>, i: nat, a: int)
    requires i < |snap|
    ensures Covered(snap[..i], a) ==> Tag(snap[..i + 1], a) == Tag(snap[..i], a)
    ensures !Covered(snap[..i], a) && Has(snap[i], a) ==> Tag(snap[..i + 1], a) == Some((snap[i].prot, snap[i].info))
  {
    assert snap[..i + 1] == snap[..i] + [snap[i]];
    TagOfConcat(snap[..i], [snap[i]], a);
  }

  lemma NextIsNew(snap: seq<Region>, i: nat, a: int)
    requires Disjoint(snap) && i < |snap| && Has(snap[i], a)
    ensures !Covered(snap[..i], a)
  {
    forall r | r in snap[..i] ensures !Has(r, a) {
      var k :| 0 <= k < i && snap[k] == r;
      assert Apart(snap[k], snap[i]);
    }
  }

  lemma SizedTop(rs: seq<Region>)
    requires AllSized(rs)
    ensures Covered(rs, MAX_U64) <==> Covered(rs, LAST_PAGE)
  {
    CoveredByPage(rs, MAX_U64);
  }

  // ---- the first loop

  /** Addresses of the first i regions that the snapshot does not cover. */
  ghost predicate Stale(was: Space, snap: seq<Region>, i: nat, a: int)
    requires i <= |was.regions|
  {
    Covered(was.regions[..i], a) && !Covered(snap, a)
  }

  /** One address mid-way through the first loop, inside the segments of region i: stale addresses and
      those of the segments done are gone, and nothing else has changed. */
  ghost predicate CutAt(was: Space, now: Space, snap: seq<Region>, i: nat, done: seq<Segment>, a: int)
    requires i <= |was.regions|
  {
    && (a in now.cells <==> a in was.cells && !Stale(was, snap, i, a) && !InSegments(done, a))
    && (a in now.cells ==> now.cells[a] == was.cells[a])
    && (a < MAX_U64 ==>
          (Covered(now.regions, a) <==> Covered(was.regions, a) && !Stale(was, snap, i, a) && !InSegments(done, a)))
  }

  ghost predicate Cutting(was: Space, now: Space, snap: seq<Region>, i: nat, done: seq<Segment>)
    requires i <= |was.regions|
  {
    && (forall a :: CutAt(was, now, snap, i, done, a))
    && (Covered(was.regions[..i], LAST_PAGE) ==> Covered(snap, LAST_PAGE))
    && (forall p :: p in done ==> Aligned(p.start) && Aligned(p.size))
  }

  ghost function Without(s: Space, p: Segment): Space {
    s.(cells := UnmapCells(s.cells, p.start, p.size), regions := RemoveRange(s.regions, p.start, p.size))
  }

  lemma SegmentsOnPages(was: Space, i: nat)
    requires AllShaped(was.regions) && i < |was.regions|
    ensures var r := was.regions[i]; OnPages(Span(r.start, SatEnd(r)))
  {
    assert was.regions[i] in was.regions && Shaped(was.regions[i]);
  }

  lemma InSegmentsNext(parts: seq<Segment>, k: nat, a: int)
    requires k < |parts|
    ensures InSegments(parts[..k + 1], a) <==> InSegments(parts[..k], a) || InSegment(parts[k], a)
  {
    assert parts[..k + 1] == parts[..k] + [parts[k]];
    assert forall q :: q in parts[..k + 1] <==> q in parts[..k] || q == parts[k];
  }

  lemma NextSegment(was: Space, snap: seq<Region>, i: nat, parts: seq<Segment>, k: nat, a: int)
    requires Disjoint(was.regions) && i < |was.regions| && k < |parts|
    requires IsDifference(parts, was.regions[i].start, was.regions[i].size, snap)
    requires InSegment(parts[k], a)
    ensures Has(was.regions[i], a) && Covered(was.regions, a) && !Covered(snap, a)
    ensures !Stale(was, snap, i, a) && !InSegments(parts[..k], a)
  {
    assert parts[k] in parts && InSegments(parts, a);
    CoveredPrefix(was.regions, i, a);
    NextIsNew(was.regions, i, a);
    forall q | q in parts[..k] ensures !InSegment(q, a) {
      var j :| 0 <= j < k && parts[j] == q;
      assert parts[j].start + parts[j].size as int <= parts[k].start;
    }
  }

  /** The engine unmaps the next segment exactly when it is whole pages. */
  lemma CanCut(was: Space, now: Space, snap: seq<Region>, i: nat, parts: seq<Segment>, k: nat)
    requires Tracked(was) && i < |was.regions| && k < |parts|
    requires IsDifference(parts, was.regions[i].start, was.regions[i].size, snap)
    requires PageSegment(parts[k]) && Cutting(was, now, snap, i, parts[..k])
    ensures CanEdit(now.cells, parts[k].start, parts[k].size) <==> Aligned(parts[k].size)
  {
    var p := parts[k];
    assert p in parts;
    forall a | InSegment(p, a) ensures a in now.cells {
      NextSegment(was, snap, i, parts, k, a);
      assert CutAt(was, now, snap, i, parts[..k], a);
    }
  }

  lemma CutOne(was: Space, now: Space, snap: seq<Region>, i: nat, parts: seq<Segment>, k: nat)
    requires Tracked(was) && i < |was.regions| && k < |parts|
    requires IsDifference(parts, was.regions[i].start, was.regions[i].size, snap)
    requires Aligned(parts[k].start) && Aligned(parts[k].size) && Cutting(was, now, snap, i, parts[..k])
    ensures Cutting(was, Without(now, parts[k]), snap, i, parts[..k + 1])
  {
    var p, next, done := parts[k], Without(now, parts[k]), parts[..k + 1];
    forall a ensures CutAt(was, next, snap, i, done, a) {
      assert CutAt(was, now, snap, i, parts[..k], a);
      InSegmentsNext(parts, k, a);
      if a < MAX_U64 {
        RemoveRangeTags(now.regions, p.start, p.size, a);
      }
    }
    assert done == parts[..k] + [p];
  }

  lemma CutStep(was: Space, now: Space, snap: seq<Region>, i: nat, parts: seq<Segment>, k: nat)
    requires Tracked(was) && Layout(snap) && i < |was.regions| && k < |parts|
    requires IsDifference(parts, was.regions[i].start, was.regions[i].size, snap)
    requires (forall p :: p in parts ==> PageSegment(p)) && Cutting(was, now, snap, i, parts[..k])
    ensures CanEdit(now.cells, parts[k].start, parts[k].size) ==>
      Cutting(was, Without(now, parts[k]), snap, i, parts[..k + 1])
    ensures !CanEdit(now.cells, parts[k].start, parts[k].size) ==> !Restorable(was, snap)
  {
    assert parts[k] in parts;
    CanCut(was, now, snap, i, parts, k);
    if Aligned(parts[k].size) {
      CutOne(was, now, snap, i, parts, k);
    } else {
      UnevenSegment(was, snap, i, parts[k], parts);
    }
  }

  /** A segment that is not whole pages is the end of a region that reaches the last page, which the
      snapshot does not have. */
  lemma UnevenSegment(was: Space, snap: seq<Region>, i: nat, p: Segment, parts: seq<Segment>)
    requires Tracked(was) && AllSized(snap) && i < |was.regions| && p in parts
    requires IsDifference(parts, was.regions[i].start, was.regions[i].size, snap)
    requires PageSegment(p) && !Aligned(p.size)
    ensures !Restorable(was, snap)
  {
    var r := was.regions[i];
    assert InSegment(p, MAX_U64 - 1) && InSegments(parts, MAX_U64 - 1);
    assert r in was.regions && Has(r, MAX_U64 - 1);
    SizedIsShaped(snap);
    ShapedTop(snap);
    ShapedTop(was.regions);
  }

  /** Conversely, once all segments have been whole pages, the snapshot has the last page if the region
      has. */
  lemma TopIsKept(was: Space, snap: seq<Region>, i: nat, parts: seq<Segment>)
    requires Tracked(was) && AllSized(snap) && i < |was.regions|
    requires IsDifference(parts, was.regions[i].start, was.regions[i].size, snap)
    requires forall p :: p in parts ==> Aligned(p.start) && Aligned(p.size)
    ensures Has(was.regions[i], LAST_PAGE) ==> Covered(snap, LAST_PAGE)
  {
    var r := was.regions[i];
    assert r in was.regions && Shaped(r);
    ShapedAtTop(r);
    SizedIsShaped(snap);
    ShapedTop(snap);
    if Has(r, LAST_PAGE) && !Covered(snap, LAST_PAGE) {
      assert InSegments(parts, MAX_U64 - 1);
      var p :| p in parts && InSegment(p, MAX_U64 - 1);
      AlignedSums(p.start, p.size);
      assert false;
    }
  }

  lemma CutAllOf(was: Space, now: Space, snap: seq<Region>, i: nat, parts: seq<Segment>)
    requires Tracked(was) && Layout(snap) && i < |was.regions|
    requires IsDifference(parts, was.regions[i].start, was.regions[i].size, snap)
    requires Cutting(was, now, snap, i, parts)
    ensures Cutting(was, now, snap, i + 1, [])
  {
    var r := was.regions[i];
    assert r in was.regions && Shaped(r);
    TopIsKept(was, snap, i, parts);
    SizedTop(snap);
    if Has(r, MAX_U64) {
      PageBelowTop(r.start);
      assert Has(r, LAST_PAGE);
    }
    CoveredPrefix(was.regions, i, LAST_PAGE);
    var next, none: seq<Segment> := i + 1, [];
    forall a ensures CutAt(was, now, snap, next, none, a) {
      assert CutAt(was, now, snap, i, parts, a);
      CoveredPrefix(was.regions, i, a);
      assert InSegments(parts, a) <==> r.start <= a < SatEnd(r) && !Covered(snap, a);
      assert Stale(was, snap, i + 1, a) <==> Stale(was, snap, i, a) || InSegments(parts, a);
    }
  }

  // ---- the second loop

  /** One address of the list between the loops. */
  ghost predicate LeftAt(was: Space, regions: seq<Region>, snap: seq<Region>, a: int) {
    a < MAX_U64 ==> (Covered(regions, a) <==> Covered(was.regions, a) && Covered(snap, a))
  }

  /** The list as the first loop leaves it; the second one only looks at it. */
  ghost predicate LeftOver(was: Space, regions: seq<Region>, snap: seq<Region>) {
    && (forall a :: LeftAt(was, regions, snap, a))
    && (Covered(was.regions, LAST_PAGE) ==> Covered(snap, LAST_PAGE))
  }

  /** Mid-way through the second loop. */
  ghost predicate Laying(was: Space, cells: Cells, snap: seq<Region>, i: nat)
    requires i <= |snap|
  {
    && cells == LaidOut(was, snap, i)
    && (forall k :: 0 <= k < i ==> Recorded(was.regions, snap[k]) || Gone(was.cells, snap[k]))
  }

  lemma Trimmed(was: Space, now: Space, snap: seq<Region>)
    requires Tracked(was) && Cutting(was, now, snap, |was.regions|, [])
    ensures LeftOver(was, now.regions, snap) && Laying(was, now.cells, snap, 0)
  {
    assert was.regions[..|was.regions|] == was.regions;
    assert forall a :: !Covered(snap[..0], a);
    forall a ensures a in now.cells <==> Stays(was, snap, a) {
      assert CutAt(was, now, snap, |was.regions|, [], a);
    }
    assert now.cells == LaidOut(was, snap, 0) by {
      forall a | a in now.cells ensures now.cells[a] == was.cells[a] {
        assert CutAt(was, now, snap, |was.regions|, [], a);
      }
    }
    forall a ensures LeftAt(was, now.regions, snap, a) {
      assert CutAt(was, now, snap, |was.regions|, [], a);
    }
  }

  /** In the half laid out engine the next region is as it was found. */
  lemma NextIsUntouched(was: Space, snap: seq<Region>, i: nat)
    requires Layout(snap) && i < |snap|
    ensures forall a :: Has(snap[i], a) ==> (a in LaidOut(was, snap, i) <==> a in was.cells)
    ensures Whole(LaidOut(was, snap, i), snap[i]) <==> Whole(was.cells, snap[i])
    ensures Gone(LaidOut(was, snap, i), snap[i]) <==> Gone(was.cells, snap[i])
  {
    assert snap[i] in snap && Sized(snap[i]);
    forall a | Has(snap[i], a) ensures a in LaidOut(was, snap, i) <==> a in was.cells {
      NextIsNew(snap, i, a);
      CoveredPrefix(snap, i, a);
    }
  }

  lemma LayWhole(was: Space, snap: seq<Region>, i: nat)
    requires Layout(snap) && i < |snap| && Whole(was.cells, snap[i])
    ensures ProtectCells(LaidOut(was, snap, i), snap[i].start, snap[i].size, snap[i].prot) == LaidOut(was, snap, i + 1)
  {
    var r := snap[i];
    var left, goal := ProtectCells(LaidOut(was, snap, i), r.start, r.size, r.prot), LaidOut(was, snap, i + 1);
    assert r in snap && Sized(r);
    forall a ensures a in left <==> a in goal {
      CoveredPrefix(snap, i, a);
    }
    forall a | a in left ensures left[a] == goal[a] {
      CoveredPrefix(snap, i, a);
      TagPrefix(snap, i, a);
      if Has(r, a) {
        NextIsNew(snap, i, a);
      }
    }
  }

  ghost predicate CellAlike(x: Cells, y: Cells, a: int) {
    (a in x <==> a in y) && (a in x ==> x[a] == y[a])
  }

  lemma CellsAlike(x: Cells, y: Cells)
    requires forall a :: CellAlike(x, y, a)
    ensures x == y
  {
    forall a ensures a in x <==> a in y {
      assert CellAlike(x, y, a);
    }
    forall a | a in x ensures x[a] == y[a] {
      assert CellAlike(x, y, a);
    }
  }

  lemma LayGoneAt(was: Space, snap: seq<Region>, i: nat, a: int)
    requires Layout(snap) && i < |snap| && Gone(was.cells, snap[i])
    ensures CellAlike(MapCells(LaidOut(was, snap, i), snap[i].start, snap[i].size, snap[i].prot),
                      LaidOut(was, snap, i + 1), a)
  {
    var r := snap[i];
    assert r in snap && Sized(r);
    CoveredPrefix(snap, i, a);
    TagPrefix(snap, i, a);
    MapCellsAt(LaidOut(was, snap, i), r.start, r.size, r.prot, a);
    if Has(r, a) {
      NextIsNew(snap, i, a);
      assert LaidOut(was, snap, i + 1)[a] == Cell(r.prot, 0);
    }
  }

  lemma LayGone(was: Space, snap: seq<Region>, i: nat)
    requires Layout(snap) && i < |snap| && Gone(was.cells, snap[i])
    ensures MapCells(LaidOut(was, snap, i), snap[i].start, snap[i].size, snap[i].prot) == LaidOut(was, snap, i + 1)
  {
    var left, goal := MapCells(LaidOut(was, snap, i), snap[i].start, snap[i].size, snap[i].prot),
        LaidOut(was, snap, i + 1);
    forall a ensures CellAlike(left, goal, a) {
      LayGoneAt(was, snap, i, a);
    }
    CellsAlike(left, goal);
  }

  /** A region on record throughout is mapped throughout, its last byte included. */
  lemma RecordedIsWhole(was: Space, r: Region)
    requires Tracked(was) && Sized(r)
    ensures Recorded(was.regions, r) ==> Whole(was.cells, r) && !Gone(was.cells, r)
  {
    if Recorded(was.regions, r) {
      assert r.start in was.cells;
      forall a | Has(r, a) ensures a in was.cells {
        if a == MAX_U64 {
          PageBelowTop(r.start);
          assert Covered(was.regions, LAST_PAGE);
          assert PageWhole(was.cells, MAX_U64);
        }
      }
    }
  }

  lemma FoundIsRecorded(was: Space, regions: seq<Region>, snap: seq<Region>, i: nat)
    requires i < |snap| && LeftOver(was, regions, snap)
    ensures Recorded(regions, snap[i]) <==> Recorded(was.regions, snap[i])
  {
    forall a | snap[i].start <= a < SatEnd(snap[i]) ensures Covered(regions, a) <==> Covered(was.regions, a) {
      CoveredPrefix(snap, i, a);
      assert LeftAt(was, regions, snap, a);
    }
  }

  lemma LayOne(was: Space, regions: seq<Region>, cells: Cells, snap: seq<Region>, i: nat, r: Region)
    requires Tracked(was) && Layout(snap) && i < |snap| && r == snap[i]
    requires LeftOver(was, regions, snap) && Laying(was, cells, snap, i)
    ensures Recorded(regions, r) ==>
      CanEdit(cells, r.start, r.size) && Laying(was, ProtectCells(cells, r.start, r.size, r.prot), snap, i + 1)
    ensures !Recorded(regions, r) && CanMap(cells, r.start, r.size) ==>
      Laying(was, MapCells(cells, r.start, r.size, r.prot), snap, i + 1)
    ensures !Recorded(regions, r) && !CanMap(cells, r.start, r.size) ==> !Restorable(was, snap)
  {
    assert r in snap && Sized(r);
    NextIsUntouched(was, snap, i);
    FoundIsRecorded(was, regions, snap, i);
    RecordedIsWhole(was, r);
    if Recorded(was.regions, r) {
      LayWhole(was, snap, i);
    } else if Gone(was.cells, r) {
      LayGone(was, snap, i);
    }
  }

  /** What mapping or protecting a region asks of it. */
  predicate Mappable(r: Region) {
    r.size == 0 || Sized(r)
  }

  lemma ForceOne(cells: Cells, snap: seq<Region>, i: nat)
    requires Disjoint(snap) && i < |snap| && InForce(cells, snap[..i])
    ensures AllMapped(cells, snap[i].start, snap[i].size) ==>
      InForce(ProtectCells(cells, snap[i].start, snap[i].size, snap[i].prot), snap[..i + 1])
    ensures InForce(MapCells(cells, snap[i].start, snap[i].size, snap[i].prot), snap[..i + 1])
  {
    var r := snap[i];
    forall a | Covered(snap[..i + 1], a)
      ensures var added := MapCells(cells, r.start, r.size, r.prot);
        a in added && added[a].prot == Tag(snap[..i + 1], a).value.0
      ensures AllMapped(cells, r.start, r.size) ==>
        a in cells && ProtectCells(cells, r.start, r.size, r.prot)[a].prot == Tag(snap[..i + 1], a).value.0
    {
      CoveredPrefix(snap, i, a);
      TagPrefix(snap, i, a);
      MapCellsAt(cells, r.start, r.size, r.prot, a);
      if Has(r, a) {
        NextIsNew(snap, i, a);
      }
    }
  }

  /** The second loop after i regions: for a layout they are in force, and the engine is laid out if the
      loop started with what the first one leaves. */
  ghost predicate LaidSoFar(was: Space, cells: Cells, snap: seq<Region>, i: nat)
    requires i <= |snap|
  {
    && (forall k :: 0 <= k < i ==> Mappable(snap[k]))
    && (Layout(snap) ==> InForce(cells, snap[..i]))
    && (Tracked(was) && Layout(snap) ==> Laying(was, cells, snap, i))
  }

  lemma LayStep(was: Space, regions: seq<Region>, cells: Cells, snap: seq<Region>, i: nat, r: Region)
    requires i < |snap| && r == snap[i] && LaidSoFar(was, cells, snap, i)
    requires Tracked(was) && Layout(snap) ==> LeftOver(was, regions, snap)
    ensures (0 < r.size ==> Recorded(regions, r)) && CanEdit(cells, r.start, r.size) ==>
      LaidSoFar(was, ProtectCells(cells, r.start, r.size, r.prot), snap, i + 1)
    ensures (0 < r.size ==> !Recorded(regions, r)) && CanMap(cells, r.start, r.size) ==>
      LaidSoFar(was, MapCells(cells, r.start, r.size, r.prot), snap, i + 1)
    ensures Tracked(was) && Layout(snap) && 0 < r.size
            && (if Recorded(regions, r) then !CanEdit(cells, r.start, r.size) else !CanMap(cells, r.start, r.size)) ==>
      !Restorable(was, snap)
  {
    if Layout(snap) {
      assert r in snap && Sized(r);
      ForceOne(cells, snap, i);
      if Tracked(was) {
        LayOne(was, regions, cells, snap, i, r);
      }
    }
  }

  /** The first loop of `restore_memory_layout`: what the snapshot does not cover is unmapped. */
  method TrimLayout(vk: Valkyrie, snap: seq<Region>) returns (ok: bool)
    modifies vk.mem`regions, vk.uc
    ensures Tracked(old(vk.AddressSpace())) && Layout(snap) ==>
      if ok then
        LeftOver(old(vk.AddressSpace()), vk.mem.regions, snap) && Laying(old(vk.AddressSpace()), vk.uc.cells, snap, 0)
      else !Restorable(old(vk.AddressSpace()), snap)
  {
    ghost var was := vk.AddressSpace();
    ghost var good := Tracked(was) && Layout(snap);
    var current := vk.mem.regions;
    for i := 0 to |current|
      invariant good ==> Cutting(was, vk.AddressSpace(), snap, i, [])
    {
      var parts := SubtractSnapshotCoverage(current[i].start, current[i].size, snap);
      if good {
        SegmentsOnPages(was, i);
      }
      for k := 0 to |parts|
        invariant good ==> Cutting(was, vk.AddressSpace(), snap, i, parts[..k])
      {
        if good {
          CutStep(was, vk.AddressSpace(), snap, i, parts, k);
        }
        var unmapped := vk.uc.MemUnmap(parts[k].start, parts[k].size);
        if !unmapped {
          return false;
        }
        vk.mem.RemoveRange(parts[k].start, parts[k].size);
      }
      assert parts[..|parts|] == parts;
      if good {
        CutAllOf(was, vk.AddressSpace(), snap, i, parts);
      }
    }
    if good {
      Trimmed(was, vk.AddressSpace(), snap);
    }
    return true;
  }

  /** The second loop: every snapshot region is mapped or protected. */
  method LayRegions(vk: Valkyrie, snap: seq<Region>, ghost was: Space) returns (ok: bool)
    requires Tracked(was) && Layout(snap) ==>
      LeftOver(was, vk.mem.regions, snap) && Laying(was, vk.uc.cells, snap, 0)
    modifies vk.uc
    ensures ok ==> forall r :: r in snap ==> Mappable(r)
    ensures ok && Layout(snap) ==> InForce(vk.uc.cells, snap)
    ensures Tracked(was) && Layout(snap) ==>
      if ok then Laying(was, vk.uc.cells, snap, |snap|) else !Restorable(was, snap)
  {
    for i := 0 to |snap|
      invariant LaidSoFar(was, vk.uc.cells, snap, i)
    {
      var region := snap[i];
      var mapped := IsRangeMapped(vk.mem.regions, region.start, region.size);
      LayStep(was, vk.mem.regions, vk.uc.cells, snap, i, region);
      if !mapped {
        ok := vk.uc.MemMap(region.start, region.size, region.prot);
      } else {
        ok := vk.uc.MemProtect(region.start, region.size, region.prot);
      }
      if !ok {
        LayoutHasSizes(snap, region);
        return;
      }
    }
    assert snap[..|snap|] == snap;
    return true;
  }

  lemma LayoutHasSizes(snap: seq<Region>, r: Region)
    requires r in snap
    ensures Layout(snap) ==> 0 < r.size
  {
    assert Layout(snap) ==> Sized(r);
  }

  /** `restore_memory_layout`. Whatever the state before, a success leaves the list of the snapshot, of
      whole pages, with every address of it mapped and protected as recorded. In any state a run can be
      in, it succeeds exactly when the snapshot is restorable, and then the engine maps the snapshot and
      what was mapped without being on record. */
  method RestoreMemoryLayout(vk: Valkyrie, snap: seq<Region>) returns (ok: bool)
    modifies vk.mem`regions, vk.uc
    ensures ok ==> vk.mem.regions == snap && forall r :: r in snap ==> Mappable(r)
    ensures ok && Layout(snap) ==> InForce(vk.uc.cells, snap)
    ensures Tracked(old(vk.AddressSpace())) && Layout(snap) ==> ok == Restorable(old(vk.AddressSpace()), snap)
    ensures Tracked(old(vk.AddressSpace())) && Layout(snap) && ok ==>
      vk.uc.cells == Restored(old(vk.AddressSpace()), snap)
  {
    ghost var was := vk.AddressSpace();
    ok := TrimLayout(vk, snap);
    if ok {
      ok := LayRegions(vk, snap, was);
    }
    if ok {
      if Tracked(was) && Layout(snap) {
        AllLaid(was, vk.mem.regions, vk.uc.cells, snap);
      }
      vk.mem.regions := snap;
    }
  }

  lemma AllLaid(was: Space, regions: seq<Region>, cells: Cells, snap: seq<Region>)
    requires LeftOver(was, regions, snap) && Laying(was, cells, snap, |snap|)
    ensures Restorable(was, snap) && cells == Restored(was, snap)
  {
    forall r | r in snap ensures Recorded(was.regions, r) || Gone(was.cells, r) {
      var k :| 0 <= k < |snap| && snap[k] == r;
    }
  }

  // ---- capture

  predicate IsWritable(r: Region) { r.prot.write }

  /** The regions recorded writable, in list order. */
  function Writable(rs: seq<Region>): (out: seq<Region>)
    ensures forall r :: r in out <==> r in rs && IsWritable(r)
  {
    if rs == [] then []
    else
      assert forall r :: r in rs <==> r == rs[0] || r in rs[1..];
      (if IsWritable(rs[0]) then [rs[0]] else []) + Writable(rs[1..])
  }

  lemma {:induction false} WritableDisjoint(rs: seq<Region>)
    requires Disjoint(rs)
    ensures Disjoint(Writable(rs))
  {
    if rs != [] {
      DisjointTail(rs);
      WritableDisjoint(rs[1..]);
      var first := if IsWritable(rs[0]) then [rs[0]] else [];
      assert AllApart(first, Writable(rs[1..]));
      DisjointConcat(first, Writable(rs[1..]));
    }
  }

  predicate SavedAs(w: Saved, r: Region) {
    w.start == r.start && |w.data| == r.size
  }

  predicate HasByte(cells: Cells, w: Saved, k: nat)
    requires k < |w.data|
  {
    w.start + k in cells && w.data[k] == cells[w.start + k].byte
  }

  ghost predicate HasBytes(cells: Cells, w: Saved) {
    forall k :: 0 <= k < |w.data| ==> HasByte(cells, w, k)
  }

  /** The saved regions are the writable ones, one for one, byte for byte. */
  ghost predicate SavedFrom(ws: seq<Saved>, cells: Cells, rs: seq<Region>) {
    && |ws| == |rs|
    && (forall i :: 0 <= i < |ws| ==> SavedAs(ws[i], rs[i]))
    && (forall i :: 0 <= i < |ws| ==> HasBytes(cells, ws[i]))
  }

  /** What a snapshot taken of a space is. */
  ghost predicate CapturedFrom(snap: Snapshot, s: Space) {
    snap.regions == s.regions && SavedFrom(snap.writable, s.cells, Writable(s.regions))
  }

  ghost predicate SameBytes(was: Cells, now: Cells) {
    && (forall a :: a in now <==> a in was)
    && (forall a :: a in now ==> now[a].byte == was[a].byte)
  }

  /** A protection that changed is now the one on record. */
  ghost predicate OnlyReprotected(was: Cells, now: Cells, rs: seq<Region>) {
    forall a :: a in now && a in was && now[a].prot != was[a].prot ==>
      Covered(rs, a) && now[a].prot == Tag(rs, a).value.0
  }

  /** Memory that is not readable is made so for the moment of the copy. */
  method ReadRegionSnapshot(vk: Valkyrie, start: U64, size: U64, prot: Prot) returns (data: Option<seq<Byte>>)
    modifies vk.uc
    ensures data.Some? <==> 0 < size && AllMapped(old(vk.uc.cells), start, size)
                            && (prot.read || CanEdit(old(vk.uc.cells), start, size))
    ensures data.Some? ==> data.value == ReadCells(old(vk.uc.cells), start, size)
    ensures vk.uc.cells == if data.None? || prot.read then old(vk.uc.cells)
                           else ProtectCells(old(vk.uc.cells), start, size, prot)
  {
    if prot.read {
      data := vk.mem.Read(vk.uc, start, size);
      return;
    }
    var ok := vk.uc.MemProtect(start, size, prot.(read := true));
    if !ok {
      return None;
    }
    var bytes := vk.mem.Read(vk.uc, start, size);
    ok := vk.uc.MemProtect(start, size, prot);
    if !ok {
      return None;
    }
    ProtectTwice(old(vk.uc.cells), start, size, prot.(read := true), prot);
    return bytes;
  }

  lemma ProtectTwice(cells: Cells, start: U64, size: U64, p: Prot, q: Prot)
    requires AllMapped(cells, start, size)
    ensures ProtectCells(ProtectCells(cells, start, size, p), start, size, q) == ProtectCells(cells, start, size, q)
    ensures ReadCells(ProtectCells(cells, start, size, p), start, size) == ReadCells(cells, start, size)
    ensures size == 0 ==> ProtectCells(cells, start, size, q) == cells
  {
  }

  /** A region that may be read as it is, or be made readable: the engine protects whole pages. */
  predicate CanCopy(r: Region) {
    r.prot.read || Aligned(r.size)
  }

  ghost predicate Capturable(rs: seq<Region>) {
    forall r :: r in rs && IsWritable(r) ==> CanCopy(r)
  }

  /** While only protections have changed, a recorded region can be read if it can be copied at all, and
      its bytes are those at the start. */
  lemma CaptureOne(was: Space, now: Cells, r: Region)
    requires Tracked(was) && r in was.regions && SameBytes(was.cells, now)
    ensures 0 < r.size && AllMapped(now, r.start, r.size)
    ensures CanEdit(now, r.start, r.size) <==> Aligned(r.size)
    ensures SavedAs(Saved(r.start, ReadCells(now, r.start, r.size)), r)
    ensures HasBytes(was.cells, Saved(r.start, ReadCells(now, r.start, r.size)))
  {
    assert Shaped(r);
    forall a | r.start <= a < r.start + r.size ensures a in was.cells && a in now {
      assert Has(r, a) && Covered(was.regions, a);
    }
    var w := Saved(r.start, ReadCells(now, r.start, r.size));
    forall k | 0 <= k < |w.data| ensures HasByte(was.cells, w, k) {
      assert now[r.start + k].byte == was.cells[r.start + k].byte;
    }
  }

  /** Setting a recorded region to its recorded protection. */
  lemma ReprotectRecorded(was: Cells, now: Cells, rs: seq<Region>, r: Region)
    requires Disjoint(rs) && r in rs && SameBytes(was, now) && OnlyReprotected(was, now, rs)
    ensures SameBytes(was, ProtectCells(now, r.start, r.size, r.prot))
    ensures OnlyReprotected(was, ProtectCells(now, r.start, r.size, r.prot), rs)
  {
    var i :| 0 <= i < |rs| && rs[i] == r;
    forall a | Has(r, a) ensures Tag(rs, a) == Some((r.prot, r.info)) {
      TagOfMember(rs, i, a);
    }
  }

  /** Capture once the first i regions are saved. */
  ghost predicate Capturing(was: Space, now: Cells, metas: seq<Region>, saved: seq<Saved>, i: nat)
    requires i <= |metas|
  {
    && SavedFrom(saved, was.cells, metas[..i])
    && SameBytes(was.cells, now) && OnlyReprotected(was.cells, now, was.regions)
    && forall k :: 0 <= k < i ==> CanCopy(metas[k])
  }

  lemma CaptureNext(was: Space, now: Cells, metas: seq<Region>, saved: seq<Saved>, i: nat)
    requires Tracked(was) && i < |metas| && metas[i] in was.regions && Capturing(was, now, metas, saved, i)
    ensures var r := metas[i];
      && 0 < r.size && AllMapped(now, r.start, r.size)
      && (CanEdit(now, r.start, r.size) <==> Aligned(r.size))
      && (CanCopy(r) ==>
            Capturing(was, if r.prot.read then now else ProtectCells(now, r.start, r.size, r.prot), metas,
                      saved + [Saved(r.start, ReadCells(now, r.start, r.size))], i + 1))
  {
    var r := metas[i];
    CaptureOne(was, now, r);
    ReprotectRecorded(was.cells, now, was.regions, r);
    assert metas[..i + 1] == metas[..i] + [r];
  }

  /** `capture_snapshot`. In any state a run can be in, it succeeds exactly when every writable region can
      be copied, the snapshot holds the writable bytes, and no byte of the guest changes. */
  method CaptureSnapshot(vk: Valkyrie) returns (snap: Option<Snapshot>)
    modifies vk.uc
    ensures snap.Some? ==> snap.value.context == vk.context && snap.value.guest == vk.guest
    ensures Tracked(old(vk.AddressSpace())) ==>
      && snap.Some? == Capturable(vk.mem.regions)
      && (snap.Some? ==> CapturedFrom(snap.value, old(vk.AddressSpace())))
      && SameBytes(old(vk.uc.cells), vk.uc.cells)
      && OnlyReprotected(old(vk.uc.cells), vk.uc.cells, vk.mem.regions)
  {
    ghost var was := vk.AddressSpace();
    var metas := Writable(vk.mem.regions);
    var saved: seq<Saved> := [];
    for i := 0 to |metas|
      invariant Tracked(was) ==> Capturing(was, vk.uc.cells, metas, saved, i)
    {
      var r := metas[i];
      assert r in metas;
      if Tracked(was) {
        CaptureNext(was, vk.uc.cells, metas, saved, i);
      }
      var data := ReadRegionSnapshot(vk, r.start, r.size, r.prot);
      if data.None? {
        return None;
      }
      saved := saved + [Saved(r.start, data.value)];
    }
    assert metas[..|metas|] == metas;
    return Some(Snapshot(vk.context, vk.mem.regions, saved, vk.guest));
  }

  // ---- restore

  ghost function WriteAll(cells: Cells, ws: seq<Saved>): Cells {
    if ws == [] then cells
    else WriteCells(WriteAll(cells, ws[..|ws| - 1]), ws[|ws| - 1].start, ws[|ws| - 1].data)
  }

  /** A snapshot as capture makes it of whole pages: a layout and the bytes of its writable regions. */
  ghost predicate Proper(snap: Snapshot) {
    && Layout(snap.regions)
    && |snap.writable| == |Writable(snap.regions)|
    && forall i :: 0 <= i < |snap.writable| ==> SavedAs(snap.writable[i], Writable(snap.regions)[i])
  }

  /** Every saved byte is in memory. */
  ghost predicate InPlace(cells: Cells, ws: seq<Saved>) {
    forall i :: 0 <= i < |ws| ==> HasBytes(cells, ws[i])
  }

  /** What any successful restore leaves, whatever was there before. */
  ghost predicate BroughtBack(s: Space, snap: Snapshot) {
    s.regions == snap.regions && InForce(s.cells, snap.regions) && InPlace(s.cells, snap.writable)
  }

  /** The space after a successful restore from a state a run can be in. */
  ghost function Reset(s: Space, snap: Snapshot): Space {
    s.(regions := snap.regions, cells := WriteAll(Restored(s, snap.regions), snap.writable))
  }

  predicate Clear(v: Saved, w: Saved) {
    v.start + |v.data| <= w.start || w.start + |w.data| <= v.start
  }

  lemma ProperIsApart(snap: Snapshot, i: nat, j: nat)
    requires Proper(snap) && i < j < |snap.writable|
    ensures Clear(snap.writable[i], snap.writable[j])
  {
    WritableDisjoint(snap.regions);
    var ws, rs := snap.writable, Writable(snap.regions);
    assert SavedAs(ws[i], rs[i]) && SavedAs(ws[j], rs[j]) && Apart(rs[i], rs[j]);
  }

  lemma SavedIsMapped(snap: Snapshot, cells: Cells, i: nat)
    requires Proper(snap) && i < |snap.writable| && InForce(cells, snap.regions)
    ensures snap.writable[i].data != [] && AllMapped(cells, snap.writable[i].start, |snap.writable[i].data|)
  {
    var r := Writable(snap.regions)[i];
    assert r in Writable(snap.regions) && Sized(r) && SavedAs(snap.writable[i], r);
    forall a | r.start <= a < r.start + r.size ensures a in cells {
      assert Has(r, a) && Covered(snap.regions, a);
    }
  }

  lemma WriteKeeps(cells: Cells, v: Saved, w: Saved)
    requires HasBytes(cells, v) && Clear(v, w)
    ensures HasBytes(WriteCells(cells, w.start, w.data), v)
  {
    forall k | 0 <= k < |v.data| ensures HasByte(WriteCells(cells, w.start, w.data), v, k) {
      assert HasByte(cells, v, k);
    }
  }

  lemma {:induction false} WriteAllKeeps(cells: Cells, ws: seq<Saved>)
    ensures WriteAll(cells, ws).Keys == cells.Keys
    ensures forall a :: a in cells ==> WriteAll(cells, ws)[a].prot == cells[a].prot
  {
    if ws != [] {
      WriteAllKeeps(cells, ws[..|ws| - 1]);
    }
  }

  lemma WriteAllForce(cells: Cells, ws: seq<Saved>, rs: seq<Region>)
    requires InForce(cells, rs)
    ensures InForce(WriteAll(cells, ws), rs)
  {
    WriteAllKeeps(cells, ws);
    assert forall a :: a in cells <==> a in cells.Keys;
  }

  /** Writing the first i saved regions over a layout puts their bytes in place. */
  lemma {:induction false} WrittenBack(laid: Cells, snap: Snapshot, i: nat)
    requires Proper(snap) && InForce(laid, snap.regions) && i <= |snap.writable|
    ensures InForce(WriteAll(laid, snap.writable[..i]), snap.regions)
    ensures InPlace(WriteAll(laid, snap.writable[..i]), snap.writable[..i])
  {
    var ws := snap.writable;
    WriteAllForce(laid, ws[..i], snap.regions);
    if i != 0 {
      var before, w := WriteAll(laid, ws[..i - 1]), ws[i - 1];
      WrittenBack(laid, snap, i - 1);
      SavedIsMapped(snap, before, i - 1);
      WriteAllNext(laid, ws, i - 1);
      forall j | 0 <= j < i ensures HasBytes(WriteAll(laid, ws[..i]), ws[j]) {
        if j < i - 1 {
          assert ws[..i - 1][j] == ws[j];
          ProperIsApart(snap, j, i - 1);
          WriteKeeps(before, ws[j], w);
        } else {
          WriteIsThere(before, w);
        }
      }
    }
  }

  lemma WriteIsThere(cells: Cells, w: Saved)
    requires AllMapped(cells, w.start, |w.data|)
    ensures HasBytes(WriteCells(cells, w.start, w.data), w)
  {
  }

  lemma WriteAllNext(cells: Cells, ws: seq<Saved>, i: nat)
    requires i < |ws|
    ensures WriteAll(cells, ws[..i + 1]) == WriteCells(WriteAll(cells, ws[..i]), ws[i].start, ws[i].data)
  {
    assert ws[..i + 1][..i] == ws[..i];
  }

  lemma RestoredAt(was: Space, snap: seq<Region>, a: int)
    requires AllSized(snap)
    ensures Covered(snap, a) ==> a in Restored(was, snap)
    ensures Covered(snap, a) ==>
      Restored(was, snap)[a] == Cell(Tag(snap, a).value.0, if a in was.cells then was.cells[a].byte else 0)
    ensures WholePages(was.cells) ==> (a in Restored(was, snap) <==> Covered(snap, a) || Lost(was, a))
    ensures a in Restored(was, snap) && !Covered(snap, a) ==>
      Lost(was, a) && Restored(was, snap)[a] == was.cells[a]
  {
    assert snap[..|snap|] == snap;
    assert forall r :: r in snap ==> Sized(r);
  }

  /** The function keeps the promise of the contract. */
  lemma ResetBringsBack(s: Space, snap: Snapshot)
    requires Proper(snap)
    ensures BroughtBack(Reset(s, snap), snap)
  {
    var laid := Restored(s, snap.regions);
    forall a | Covered(snap.regions, a) ensures a in laid && laid[a].prot == Tag(snap.regions, a).value.0 {
      RestoredAt(s, snap.regions, a);
    }
    WrittenBack(laid, snap, |snap.writable|);
    assert snap.writable[..|snap.writable|] == snap.writable;
  }

  /** `restore_snapshot`. Whatever the state before, a success brings back regions, protections, saved
      bytes, registers and guest state. In any state a run can be in, it succeeds exactly when the layout
      is restorable, and then the whole memory is a function of the memory before and the snapshot. */
  method RestoreSnapshot(vk: Valkyrie, snap: Snapshot) returns (ok: bool)
    modifies vk`context, vk`guest, vk.mem`regions, vk.uc
    ensures ok && Proper(snap) ==> BroughtBack(vk.AddressSpace(), snap)
    ensures ok ==> vk.context == snap.context && vk.guest == snap.guest
    ensures ok ==> vk.mem.regions == snap.regions && forall r :: r in snap.regions ==> Mappable(r)
    ensures Tracked(old(vk.AddressSpace())) && Proper(snap) ==>
      && ok == Restorable(old(vk.AddressSpace()), snap.regions)
      && (ok ==> vk.AddressSpace() == Reset(old(vk.AddressSpace()), snap))
  {
    ok := RestoreMemoryLayout(vk, snap.regions);
    if !ok {
      return;
    }
    ghost var laid := vk.uc.cells;
    for i := 0 to |snap.writable|
      invariant vk.mem.regions == snap.regions
      invariant vk.uc.cells == WriteAll(laid, snap.writable[..i])
    {
      var region := snap.writable[i];
      if Proper(snap) {
        WrittenBack(laid, snap, i);
        SavedIsMapped(snap, vk.uc.cells, i);
      }
      WriteAllNext(laid, snap.writable, i);
      var written := vk.mem.Write(vk.uc, region.start, region.data);
      if !written {
        return false;
      }
    }
    assert snap.writable[..|snap.writable|] == snap.writable;
    if Proper(snap) {
      WrittenBack(laid, snap, |snap.writable|);
    }
    vk.context := snap.context;
    vk.guest := snap.guest;
  }
}
