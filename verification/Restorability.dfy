/** After which calls of a run the next input would start as the first one did. */
module Restorability {
  import opened Words
  import opened Regions
  import opened Engine
  import opened Emulator
  import opened AddressSpace
  import opened Tracking
  import opened Fuzzing
  import opened Rounds

  /** The region is in the range or outside it. */
  predicate InOrOut(r: Region, range: Range) {
    || (range.start <= r.start && End(r) <= range.start + range.size)
    || End(r) <= range.start || range.start + range.size <= r.start
  }

  /** The call maps or unmaps no region of the snapshot in part. */
  ghost predicate FlipsWhole(s: Space, call: Call, snap: seq<Region>) {
    Flipped(s, call).Some? ==> forall r :: r in snap ==> InOrOut(r, Flipped(s, call).value)
  }

  lemma FlipKeepsWhole(was: Cells, now: Cells, range: Range, r: Region)
    requires Whole(was, r) || Gone(was, r)
    requires AllMapped(was, range.start, range.size) || NoneMapped(was, range.start, range.size)
    requires forall a :: FlipsAt(was, now, Some(range), a)
    requires InOrOut(r, range)
    ensures Whole(now, r) || Gone(now, r)
  {
    forall a | r.start <= a < r.start + r.size
      ensures a in now <==> (a in was <==> !(range.start <= r.start && End(r) <= range.start + range.size))
    {
      assert FlipsAt(was, now, Some(range), a);
    }
  }

  lemma FlipBreaks(was: Cells, now: Cells, range: Range, r: Region)
    requires Whole(was, r) || Gone(was, r)
    requires forall a :: FlipsAt(was, now, Some(range), a)
    requires 0 < r.size && 0 < range.size && !InOrOut(r, range)
    ensures !Whole(now, r) && !Gone(now, r)
  {
    var inside := if r.start < range.start then range.start else r.start;
    var outside := if r.start < range.start then r.start else End(r) - 1;
    assert FlipsAt(was, now, Some(range), inside) && FlipsAt(was, now, Some(range), outside);
    assert inside in was <==> outside in was;
  }

  lemma FlippedRegion(s: Space, call: Call, r: Region)
    requires (Whole(s.cells, r) || Gone(s.cells, r)) && 0 < r.size
    ensures Whole(Step(s, call).cells, r) || Gone(Step(s, call).cells, r) <==>
            (Flipped(s, call).Some? ==> InOrOut(r, Flipped(s, call).value))
  {
    var was, now, range := s.cells, Step(s, call).cells, Flipped(s, call);
    forall a ensures FlipsAt(was, now, range, a) {
      StepFlips(s, call, a);
    }
    if range.None? {
      NothingFlips(was, now, r);
    } else {
      FlippedWhole(s, call);
      if InOrOut(r, range.value) {
        FlipKeepsWhole(was, now, range.value, r);
      } else {
        FlipBreaks(was, now, range.value, r);
      }
    }
  }

  lemma NothingFlips(was: Cells, now: Cells, r: Region)
    requires forall a :: FlipsAt(was, now, None, a)
    ensures Whole(now, r) <==> Whole(was, r)
    ensures Gone(now, r) <==> Gone(was, r)
  {
    assert forall a :: FlipsAt(was, now, None, a) ==> (a in now <==> a in was);
  }

  /** No snapshot region is mapped in part. */
  ghost predicate NoneHalf(cells: Cells, snap: seq<Region>) {
    forall r :: r in snap ==> Whole(cells, r) || Gone(cells, r)
  }

  /** No snapshot region is half mapped after a call if and only if the call maps or unmaps no region of
      it in part. */
  lemma StepNoneHalf(s: Space, call: Call, snap: seq<Region>)
    requires NoneHalf(s.cells, snap) && forall r :: r in snap ==> 0 < r.size
    ensures NoneHalf(Step(s, call).cells, snap) <==> FlipsWhole(s, call, snap)
  {
    forall r | r in snap
      ensures Whole(Step(s, call).cells, r) || Gone(Step(s, call).cells, r) <==>
              (Flipped(s, call).Some? ==> InOrOut(r, Flipped(s, call).value))
    {
      FlippedRegion(s, call, r);
    }
  }

  // ---- the next input

  /** A restore succeeds now and leaves mapped what the snapshot has, and nothing else. */
  ghost predicate StartsAlike(s: Space, snap: Snapshot) {
    && Restorable(s, snap.regions)
    && forall a :: a in Reset(s, snap).cells <==> Covered(snap.regions, a)
  }

  /** Nothing is lost but perhaps the last address, no snapshot region is half mapped, and the last page
      is not mapped unless it is in the snapshot. */
  ghost predicate Ready(s: Space, snap: seq<Region>) {
    OnRecord(s) && NoneHalf(s.cells, snap) && (LAST_PAGE in s.cells ==> Covered(snap, LAST_PAGE))
  }

  lemma WholeIsRecorded(s: Space, r: Region)
    requires OnRecord(s) && Whole(s.cells, r)
    ensures Recorded(s.regions, r)
  {
    forall a | r.start <= a < SatEnd(r) ensures Covered(s.regions, a) {
      assert a in s.cells && (Lost(s, a) ==> a == MAX_U64);
    }
  }

  lemma ReadyStartsAlike(s: Space, snap: Snapshot)
    requires Proper(snap) && Ready(s, snap.regions)
    ensures StartsAlike(s, snap)
  {
    forall r | r in snap.regions ensures Recorded(s.regions, r) || Gone(s.cells, r) {
      if Whole(s.cells, r) {
        WholeIsRecorded(s, r);
      }
    }
    forall a ensures a in Reset(s, snap).cells <==> Covered(snap.regions, a) {
      ResetMaps(s, snap, a);
      if Lost(s, a) {
        assert PageWhole(s.cells, MAX_U64);
        SizedTop(snap.regions);
      }
    }
  }

  lemma StartsAlikeReady(s: Space, snap: Snapshot)
    requires Tracked(s) && Proper(snap) && StartsAlike(s, snap)
    ensures Ready(s, snap.regions)
  {
    forall a | Lost(s, a) ensures a == MAX_U64 {
      ResetMaps(s, snap, a);
      LostIsOutside(s, snap, a);
    }
    forall r | r in snap.regions ensures Whole(s.cells, r) || Gone(s.cells, r) {
      assert Sized(r);
      RecordedIsWhole(s, r);
    }
    assert LAST_PAGE in s.cells && !Covered(s.regions, LAST_PAGE) ==> Lost(s, LAST_PAGE);
  }

  /** These three are what it takes, in any state a run can be in. */
  lemma ReadyExactly(s: Space, snap: Snapshot)
    requires Tracked(s) && Proper(snap)
    ensures StartsAlike(s, snap) <==> Ready(s, snap.regions)
  {
    if Ready(s, snap.regions) {
      ReadyStartsAlike(s, snap);
    }
    if StartsAlike(s, snap) {
      StartsAlikeReady(s, snap);
    }
  }

  lemma RangeHasTop(range: Range)
    requires Aligned(range.start) && Aligned(range.size) && 0 < range.size
    ensures InRange(LAST_PAGE, range.start, range.size) <==> range.start + range.size as int > MAX_U64
  {
    AlignedSums(range.start, range.size);
    PageBelowTop(range.start);
    if range.start + range.size as int <= MAX_U64 {
      PageBelowTop(range.start + range.size);
    }
  }

  lemma MapsTopFlips(s: Space, call: Call)
    requires LAST_PAGE !in s.cells
    ensures MapsTop(s, call) <==>
      Flipped(s, call).Some? && InRange(LAST_PAGE, Flipped(s, call).value.start, Flipped(s, call).value.size)
  {
    if Flipped(s, call).Some? {
      FlippedOnPages(s, call);
      FlippedWhole(s, call);
      RangeHasTop(Flipped(s, call).value);
    }
  }

  /** The last page comes into use with a mapping up to 2^64 and no other way. */
  lemma TopFlips(s: Space, call: Call)
    requires LAST_PAGE !in s.cells
    ensures LAST_PAGE in Step(s, call).cells <==> MapsTop(s, call)
  {
    StepFlips(s, call, LAST_PAGE);
    MapsTopFlips(s, call);
  }

  /** The call overmaps no partly mapped range, maps or unmaps no snapshot region in part, and is granted
      a mapping up to 2^64 only if the snapshot has the last page. */
  ghost predicate Tidy(s: Space, call: Call, snap: seq<Region>) {
    !Tears(s, call) && FlipsWhole(s, call, snap) && (MapsTop(s, call) ==> Covered(snap, LAST_PAGE))
  }

  /** One call: the next input would start alike after it if and only if it is such a call. */
  lemma StepReady(s: Space, call: Call, snap: seq<Region>)
    requires Layout(snap) && Ready(s, snap)
    ensures Ready(Step(s, call), snap) <==> Tidy(s, call, snap)
  {
    assert forall r :: r in snap ==> Sized(r);
    StepOnRecord(s, call);
    StepNoneHalf(s, call, snap);
    if !Covered(snap, LAST_PAGE) {
      TopFlips(s, call);
    }
  }

  ghost predicate TidyRun(s: Space, snap: seq<Region>, calls: seq<Call>)
    decreases |calls|
  {
    calls == [] || (Tidy(s, calls[0], snap) && TidyRun(Step(s, calls[0]), snap, calls[1..]))
  }

  /** A run: it would at the start and after each call, if and only if every call is such a call. */
  lemma {:induction false} RunReady(s: Space, snap: seq<Region>, calls: seq<Call>, p: Space -> bool)
    requires Layout(snap) && Ready(s, snap)
    requires forall t :: p(t) <==> Ready(t, snap)
    ensures Always(p, s, calls) <==> TidyRun(s, snap, calls)
    ensures TidyRun(s, snap, calls) ==> Ready(Run(s, calls), snap)
    decreases |calls|
  {
    AlwaysNext(p, s, calls);
    if calls != [] {
      StepReady(s, calls[0], snap);
      if p(Step(s, calls[0])) {
        RunReady(Step(s, calls[0]), snap, calls[1..], p);
      } else {
        AlwaysNext(p, Step(s, calls[0]), calls[1..]);
      }
    }
  }

  // ---- sessions

  lemma ResetReady(s: Space, snap: Snapshot)
    requires Proper(snap) && Ready(s, snap.regions)
    ensures Ready(Reset(s, snap), snap.regions) && Same(Reset(s, snap))
  {
    ReadyStartsAlike(s, snap);
    var t := Reset(s, snap);
    assert Same(t);
    SameIsTracked(t);
    forall r | r in snap.regions ensures Whole(t.cells, r) {
      assert forall a :: Has(r, a) ==> Covered(snap.regions, a);
    }
  }

  /** The property holds at the start of every run of a session and after each call. */
  ghost predicate AlwaysInSession(p: Space -> bool, s: Space, snap: Snapshot, runs: seq<seq<Call>>)
    decreases |runs|
  {
    runs == [] ||
    (Always(p, s, runs[0]) && AlwaysInSession(p, Reset(Run(s, runs[0]), snap), snap, runs[1..]))
  }

  ghost predicate AllTidy(s: Space, snap: Snapshot, runs: seq<seq<Call>>)
    decreases |runs|
  {
    runs == [] ||
    (TidyRun(s, snap.regions, runs[0]) && AllTidy(Reset(Run(s, runs[0]), snap), snap, runs[1..]))
  }

  /** A session: wherever an input is stopped the next one would start alike, if and only if every call of
      every input is such a call; then every restore succeeds. */
  lemma {:induction false} SessionReady(s: Space, snap: Snapshot, runs: seq<seq<Call>>, p: Space -> bool)
    requires Proper(snap) && Ready(s, snap.regions)
    requires forall t :: p(t) <==> Ready(t, snap.regions)
    ensures AlwaysInSession(p, s, snap, runs) <==> AllTidy(s, snap, runs)
    ensures AllTidy(s, snap, runs) ==> Repeatable(s, snap, runs)
    ensures AllTidy(s, snap, runs) && runs != [] ==> Same(Rounds.Rounds(s, snap, runs))
    decreases |runs|
  {
    if runs != [] {
      var after := Run(s, runs[0]);
      RunReady(s, snap.regions, runs[0], p);
      if TidyRun(s, snap.regions, runs[0]) {
        ReadyStartsAlike(after, snap);
        ResetReady(after, snap);
        SessionReady(Reset(after, snap), snap, runs[1..], p);
        assert runs[1..] == [] ==> Rounds.Rounds(s, snap, runs) == Reset(after, snap);
      }
    }
  }

  /** A space whose list and engine agree is ready for a snapshot of itself. */
  lemma CapturedIsReady(s: Space, snap: Snapshot)
    requires Same(s) && CapturedFrom(snap, s)
    ensures Captured(snap, s) && Proper(snap) && Ready(s, snap.regions)
  {
    SameIsTracked(s);
    CapturedIsProper(s, snap);
    forall r | r in snap.regions ensures Whole(s.cells, r) {
      assert forall a :: Has(r, a) ==> Covered(s.regions, a);
    }
  }

  /** From capture on, after any number of tidy inputs, the next one starts from the captured addresses
      and no others, with the captured protections and the captured bytes wherever it may write. */
  lemma TidyInputsStartAlike(s: Space, snap: Snapshot, runs: seq<seq<Call>>, a: int)
    requires Same(s) && CapturedFrom(snap, s) && AllTidy(s, snap, runs) && runs != []
    ensures var u := Rounds.Rounds(s, snap, runs);
      && Same(u) && u.regions == s.regions
      && (a in u.cells <==> a in s.cells)
      && (a in s.cells ==> u.cells[a].prot == Tag(s.regions, a).value.0)
      && (a in s.cells && Tag(s.regions, a).value.0.write ==> u.cells[a].byte == s.cells[a].byte)
  {
    CapturedIsReady(s, snap);
    SessionReady(s, snap, runs, (t: Space) => Ready(t, snap.regions));
    EveryInputStartsAlike(s, s, snap, runs, a);
  }
}
