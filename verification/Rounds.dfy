/** What the fuzzing loop relies on: every input starts from the state of the snapshot. */
module Rounds {
  import opened Words
  import opened Regions
  import opened Engine
  import opened Emulator
  import opened AddressSpace
  import opened Tracking
  import opened Fuzzing
  import opened Heap
  import Coverage

  predicate InSaved(w: Saved, a: int) {
    w.start <= a < w.start + |w.data|
  }

  /** A snapshot of a state a run can be in, all its regions whole pages. */
  ghost predicate Captured(snap: Snapshot, s: Space) {
    Tracked(s) && AllSized(s.regions) && CapturedFrom(snap, s)
  }

  lemma CapturedIsProper(s: Space, snap: Snapshot)
    requires Captured(snap, s)
    ensures Proper(snap)
  {
  }

  /** The index of the region a writable address was recorded in. */
  lemma WritableIndex(snap: Snapshot, a: int) returns (i: nat)
    requires Proper(snap) && Covered(snap.regions, a) && Tag(snap.regions, a).value.0.write
    ensures i < |snap.writable| && InSaved(snap.writable[i], a)
  {
    var r :| r in snap.regions && Has(r, a);
    var k :| 0 <= k < |snap.regions| && snap.regions[k] == r;
    TagOfMember(snap.regions, k, a);
    assert r in Writable(snap.regions);
    i :| 0 <= i < |Writable(snap.regions)| && Writable(snap.regions)[i] == r;
    assert SavedAs(snap.writable[i], r);
  }

  lemma BackByte(s: Space, snap: Snapshot, i: nat, a: int)
    requires BroughtBack(s, snap) && i < |snap.writable| && InSaved(snap.writable[i], a)
    ensures a in s.cells && s.cells[a].byte == snap.writable[i].data[a - snap.writable[i].start]
  {
    assert HasBytes(s.cells, snap.writable[i]) && HasByte(s.cells, snap.writable[i], a - snap.writable[i].start);
  }

  lemma SavedByte(s: Space, snap: Snapshot, i: nat, a: int)
    requires CapturedFrom(snap, s) && i < |snap.writable| && InSaved(snap.writable[i], a)
    ensures a in s.cells && snap.writable[i].data[a - snap.writable[i].start] == s.cells[a].byte
  {
    assert HasBytes(s.cells, snap.writable[i]) && HasByte(s.cells, snap.writable[i], a - snap.writable[i].start);
  }

  /** Capture a space, let anything happen to it, restore with success: every recorded address is mapped
      with the recorded protection, and each byte recorded writable is what it was at capture. */
  lemma RestoreBringsBack(s: Space, snap: Snapshot, u: Space, a: int)
    requires Captured(snap, s) && BroughtBack(u, snap) && Covered(s.regions, a)
    ensures a in u.cells && u.cells[a].prot == Tag(s.regions, a).value.0
    ensures Tag(s.regions, a).value.0.write ==> a in s.cells && u.cells[a].byte == s.cells[a].byte
  {
    CapturedIsProper(s, snap);
    if Tag(s.regions, a).value.0.write {
      var i := WritableIndex(snap, a);
      BackByte(u, snap, i, a);
      SavedByte(s, snap, i, a);
    }
  }

  /** Two inputs, after whatever went before each: every recorded address has the same protection, and
      the same byte wherever the guest may write. */
  lemma InputsStartAlike(snap: Snapshot, u: Space, v: Space, a: int)
    requires Proper(snap) && BroughtBack(u, snap) && BroughtBack(v, snap) && Covered(snap.regions, a)
    ensures a in u.cells && a in v.cells && u.cells[a].prot == v.cells[a].prot
    ensures u.cells[a].prot.write ==> u.cells[a] == v.cells[a]
  {
    if u.cells[a].prot.write {
      var i := WritableIndex(snap, a);
      BackByte(u, snap, i, a);
      BackByte(v, snap, i, a);
    }
  }

  // ---- what else is mapped

  /** After a restore the engine maps the snapshot, and what was mapped without being on record: that is
      never cleared. */
  lemma ResetMaps(s: Space, snap: Snapshot, a: int)
    requires Tracked(s) && Proper(snap)
    ensures a in Reset(s, snap).cells <==> Covered(snap.regions, a) || Lost(s, a)
  {
    RestoredAt(s, snap.regions, a);
    WriteAllKeeps(Restored(s, snap.regions), snap.writable);
    assert a in Reset(s, snap).cells <==> a in Reset(s, snap).cells.Keys;
  }

  /** Where a restore succeeds, an address lost from the snapshot is the last one, and the page it is on
      is in the snapshot. */
  lemma LostIsOutside(s: Space, snap: Snapshot, a: int)
    requires Tracked(s) && Proper(snap) && Restorable(s, snap.regions) && Lost(s, a)
    ensures Covered(snap.regions, a) ==> a == MAX_U64
    ensures a == MAX_U64 && !Lost(s, LAST_PAGE) ==> Covered(snap.regions, a)
  {
    if r :| r in snap.regions && Has(r, a) {
      assert Sized(r) && (Recorded(s.regions, r) || Gone(s.cells, r));
    }
    if a == MAX_U64 {
      assert PageWhole(s.cells, MAX_U64);
      SizedTop(snap.regions);
    }
  }

  lemma LostByPage(s: Space, snap: Snapshot, a: U64)
    requires Tracked(s) && Proper(snap) && Restorable(s, snap.regions) && !Covered(snap.regions, a)
    ensures Lost(s, a) <==> Lost(s, AlignDown(a))
  {
    assert PageWhole(s.cells, a);
    CoveredByPage(snap.regions, a);
    if a == MAX_U64 {
      SizedTop(snap.regions);
      if Lost(s, a) {
        LostIsOutside(s, snap, a);
      }
      if Covered(s.regions, MAX_U64) {
        TopByPage(s);
      }
    } else {
      ShapedByPage(s.regions, a);
    }
  }

  lemma TopByPage(s: Space)
    requires AllShaped(s.regions) && Covered(s.regions, MAX_U64)
    ensures Covered(s.regions, LAST_PAGE)
  {
    var r :| r in s.regions && Has(r, MAX_U64);
    assert Shaped(r);
    PageBelowTop(r.start);
    assert Has(r, LAST_PAGE);
  }

  lemma ShapedByPage(rs: seq<Region>, a: U64)
    requires AllShaped(rs) && a < MAX_U64
    ensures Covered(rs, a) <==> Covered(rs, AlignDown(a))
  {
    forall r | r in rs ensures Has(r, a) <==> Has(r, AlignDown(a)) {
      RegionByPage(r, a);
    }
  }

  lemma RegionByPage(r: Region, a: U64)
    requires Shaped(r) && a < MAX_U64
    ensures Has(r, a) <==> Has(r, AlignDown(a))
  {
    if Aligned(End(r)) && End(r) <= MAX_U64 {
      AlignedSums(End(r), r.start);
      InRangeByPage(r.start, r.size, a);
    }
  }

  /** A restored state is one a run can be in. */
  lemma ResetTracked(s: Space, snap: Snapshot)
    requires Tracked(s) && Proper(snap) && Restorable(s, snap.regions)
    ensures Tracked(Reset(s, snap)) && BroughtBack(Reset(s, snap), snap)
  {
    var t := Reset(s, snap);
    ResetBringsBack(s, snap);
    SizedIsShaped(snap.regions);
    forall r | r in snap.regions ensures Sound(r) {
      assert Sized(r);
    }
    forall a | a in t.cells ensures 0 <= a <= MAX_U64 {
      ResetMaps(s, snap, a);
    }
    forall a: U64 ensures PageWhole(t.cells, a) {
      ResetMaps(s, snap, a);
      ResetMaps(s, snap, AlignDown(a));
      CoveredByPage(snap.regions, a);
      if !Covered(snap.regions, a) {
        LostByPage(s, snap, a);
      }
    }
  }

  /** A restore that succeeds makes good a lost last byte, and never a torn mapping. */
  lemma ResetSame(s: Space, snap: Snapshot)
    requires Tracked(s) && Proper(snap) && Restorable(s, snap.regions)
    ensures Same(Reset(s, snap)) <==> OnRecord(s)
  {
    var t := Reset(s, snap);
    forall a ensures a in t.cells <==> Covered(snap.regions, a) || Lost(s, a) {
      ResetMaps(s, snap, a);
    }
    forall a | Lost(s, a) ensures Covered(snap.regions, a) ==> a == MAX_U64
                          ensures a == MAX_U64 && !Lost(s, LAST_PAGE) ==> Covered(snap.regions, a) {
      LostIsOutside(s, snap, a);
    }
  }

  /** For a whole run: whatever the guest stores, maps, unmaps and reprotects between the capture and a
      restore that succeeds. */
  lemma RunThenRestore(s: Space, snap: Snapshot, calls: seq<Call>, a: int)
    requires Captured(snap, s) && Restorable(Run(s, calls), snap.regions)
    ensures var t, u := Run(s, calls), Reset(Run(s, calls), snap);
      && Tracked(t) && Tracked(u) && u.regions == s.regions
      && (a in u.cells <==> Covered(s.regions, a) || Lost(t, a))
      && (Covered(s.regions, a) ==> u.cells[a].prot == Tag(s.regions, a).value.0)
      && (Covered(s.regions, a) && Tag(s.regions, a).value.0.write ==>
            a in s.cells && u.cells[a].byte == s.cells[a].byte)
  {
    RunTracked(s, calls);
    CapturedIsProper(s, snap);
    ResetTracked(Run(s, calls), snap);
    ResetMaps(Run(s, calls), snap, a);
    if Covered(s.regions, a) {
      RestoreBringsBack(s, snap, Reset(Run(s, calls), snap), a);
    }
  }

  /** Input after input: run the guest, restore, run it again. */
  ghost function Rounds(s: Space, snap: Snapshot, runs: seq<seq<Call>>): Space
    decreases |runs|
  {
    if runs == [] then s else Rounds(Reset(Run(s, runs[0]), snap), snap, runs[1..])
  }

  /** Every restore of the session succeeds. */
  ghost predicate Repeatable(s: Space, snap: Snapshot, runs: seq<seq<Call>>)
    decreases |runs|
  {
    runs == [] ||
    (Restorable(Run(s, runs[0]), snap.regions) && Repeatable(Reset(Run(s, runs[0]), snap), snap, runs[1..]))
  }

  lemma {:induction false} RoundsBringBack(s: Space, snap: Snapshot, runs: seq<seq<Call>>)
    requires Tracked(s) && Proper(snap) && Repeatable(s, snap, runs) && runs != []
    ensures Tracked(Rounds(s, snap, runs)) && BroughtBack(Rounds(s, snap, runs), snap)
    decreases |runs|
  {
    RunTracked(s, runs[0]);
    ResetTracked(Run(s, runs[0]), snap);
    if |runs| > 1 {
      RoundsBringBack(Reset(Run(s, runs[0]), snap), snap, runs[1..]);
    } else {
      assert Rounds(s, snap, runs) == Reset(Run(s, runs[0]), snap);
    }
  }

  /** After any number of inputs, whatever each did, once the restores have succeeded the next one finds
      the captured addresses with the captured protections, and the captured bytes wherever it may
      write. */
  lemma EveryInputStartsAlike(s: Space, t: Space, snap: Snapshot, runs: seq<seq<Call>>, a: int)
    requires Captured(snap, s) && Tracked(t) && Repeatable(t, snap, runs) && runs != []
    ensures var u := Rounds(t, snap, runs);
      && Tracked(u) && BroughtBack(u, snap) && u.regions == s.regions
      && (Covered(s.regions, a) ==> a in u.cells && u.cells[a].prot == Tag(s.regions, a).value.0)
      && (Covered(s.regions, a) && Tag(s.regions, a).value.0.write ==>
            a in s.cells && u.cells[a].byte == s.cells[a].byte)
  {
    CapturedIsProper(s, snap);
    RoundsBringBack(t, snap, runs);
    if Covered(s.regions, a) {
      RestoreBringsBack(s, snap, Rounds(t, snap, runs), a);
    }
  }

  lemma {:induction false} WriteAllAgain(cells: Cells, ws: seq<Saved>)
    requires InPlace(cells, ws)
    ensures WriteAll(cells, ws) == cells
  {
    if ws != [] {
      var init, w := ws[..|ws| - 1], ws[|ws| - 1];
      forall i | 0 <= i < |init| ensures HasBytes(cells, init[i]) {
        assert init[i] == ws[i];
      }
      WriteAllAgain(cells, init);
      WriteAgain(cells, w);
    }
  }

  lemma WriteAgain(cells: Cells, w: Saved)
    requires HasBytes(cells, w)
    ensures WriteCells(cells, w.start, w.data) == cells
  {
    forall a | InSaved(w, a) ensures a in cells && cells[a].byte == w.data[a - w.start] {
      assert HasByte(cells, w, a - w.start);
    }
  }

  /** What a successful restore leaves can be restored again, and that changes nothing. */
  lemma RestoringTwice(snap: Snapshot, s: Space)
    requires Tracked(s) && Proper(snap) && BroughtBack(s, snap)
    ensures Restorable(s, snap.regions) && Reset(s, snap) == s
  {
    forall r | r in snap.regions ensures Recorded(s.regions, r) {
      assert forall a :: r.start <= a < SatEnd(r) ==> Has(r, a);
    }
    var laid := Restored(s, snap.regions);
    forall a ensures (a in laid <==> a in s.cells) && (a in laid ==> laid[a] == s.cells[a]) {
      RestoredAt(s, snap.regions, a);
    }
    assert laid == s.cells;
    WriteAllAgain(s.cells, snap.writable);
  }

  lemma {:induction false} WriteAllElsewhere(cells: Cells, ws: seq<Saved>, a: int)
    requires a in cells && forall i :: 0 <= i < |ws| ==> !InSaved(ws[i], a)
    ensures a in WriteAll(cells, ws) && WriteAll(cells, ws)[a] == cells[a]
  {
    if ws != [] {
      var init := ws[..|ws| - 1];
      assert forall i :: 0 <= i < |init| ==> init[i] == ws[i];
      WriteAllElsewhere(cells, init, a);
    }
  }

  /** A byte recorded without write permission is not restored: it stays as the run has left it, and
      is zero if the run has unmapped it. */
  lemma ReadOnlyBytesAreLeft(snap: Snapshot, s: Space, a: int)
    requires Proper(snap) && Covered(snap.regions, a) && !Tag(snap.regions, a).value.0.write
    ensures a in Reset(s, snap).cells
    ensures Reset(s, snap).cells[a].byte == if a in s.cells then s.cells[a].byte else 0
  {
    RestoredAt(s, snap.regions, a);
    forall i | 0 <= i < |snap.writable| ensures !InSaved(snap.writable[i], a) {
      NotSaved(snap, i, a);
    }
    WriteAllElsewhere(Restored(s, snap.regions), snap.writable, a);
  }

  lemma NotSaved(snap: Snapshot, i: nat, a: int)
    requires Proper(snap) && i < |snap.writable|
    requires Covered(snap.regions, a) && !Tag(snap.regions, a).value.0.write
    ensures !InSaved(snap.writable[i], a)
  {
    var r := Writable(snap.regions)[i];
    assert r in Writable(snap.regions) && SavedAs(snap.writable[i], r);
    var k :| 0 <= k < |snap.regions| && snap.regions[k] == r;
    if Has(r, a) {
      TagOfMember(snap.regions, k, a);
    }
  }

  /** The break is not part of a snapshot. After a restore the heap is in order exactly when the run
      has left the break within the heap of the snapshot. */
  lemma RestoredHeap(s: Space, snap: seq<Region>, end: int)
    requires Fills(snap, s.heapStart, end)
    ensures HeapOk(s.(regions := snap)) <==> s.heapStart <= s.heapExit <= end
  {
    var t := s.(regions := snap);
    if s.heapStart <= s.heapExit <= end {
      assert HeapTo(t, end);
    }
    if HeapOk(t) {
      var e :| HeapTo(t, e);
      FillEndIsUnique(snap, s.heapStart, end, e);
    }
  }

  /** `ReusableEmulator`: what `run_input` does before the guest runs. */
  class ReusableEmulator {
    const vk: Valkyrie
    const snapshot: Snapshot
    const coverage: Coverage.CoverageMap

    constructor (vk: Valkyrie, snapshot: Snapshot, coverage: Coverage.CoverageMap)
      ensures this.vk == vk && this.snapshot == snapshot && this.coverage == coverage
    {
      this.vk := vk;
      this.snapshot := snapshot;
      this.coverage := coverage;
    }

    method PrepareInput(input: seq<Byte>) returns (ok: bool)
      modifies vk, vk.mem`regions, vk.uc, coverage, coverage.buffer
      ensures ok && Proper(snapshot) ==> BroughtBack(vk.AddressSpace(), snapshot)
      ensures ok ==> vk.mem.regions == snapshot.regions && forall r :: r in snapshot.regions ==> Mappable(r)
      ensures ok ==>
        && vk.context == snapshot.context && vk.guest == snapshot.guest
        && vk.stdinData == input && vk.stdinOffset == 0
        && vk.state == NotSet && vk.exitStatus == None && !vk.crashed
        && (coverage.buffer.Length != 0 ==> coverage.Value() == Coverage.Cleared(coverage.buffer.Length))
      ensures Tracked(old(vk.AddressSpace())) && Proper(snapshot) ==>
        && ok == Restorable(old(vk.AddressSpace()), snapshot.regions)
        && (ok ==> vk.AddressSpace() == Reset(old(vk.AddressSpace()), snapshot))
    {
      ok := RestoreSnapshot(vk, snapshot);
      if !ok {
        return;
      }
      vk.SetStdinBytes(input);
      vk.ResetExecutionState();
      coverage.Clear();
    }
  }
}
