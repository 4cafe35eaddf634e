/** Protections on record against protections in force. */
module Protections {
  import opened Words
  import opened Regions
  import opened Engine
  import opened Emulator
  import opened Syscalls
  import opened AddressSpace
  import opened Fuzzing
  import opened Rounds

  /** The record of an address names the protection the engine enforces there. */
  ghost predicate ProtAt(rs: seq<Region>, cells: Cells, a: int) {
    a in cells && Covered(rs, a) ==> Tag(rs, a).value.0 == cells[a].prot
  }

  ghost predicate AllProts(s: Space) {
    forall a :: ProtAt(s.regions, s.cells, a)
  }

  /** List and engine cover the same addresses with the same protections. */
  ghost predicate SameProts(s: Space) {
    Same(s) && AllProts(s)
  }

  /** An mprotect request that the engine refuses, or that covers each region it touches as a whole,
      except those that have the protection already. */
  ghost predicate WholeRegions(s: Space, addr: U64, len: U64, prot: U64) {
    var start, end, p := AlignDown(addr), AlignUp(SatAdd(addr, len)), ProtFromFlags(prot);
    len != 0 && CanEdit(s.cells, start, SatSub(end, start)) ==>
      forall r :: r in s.regions && Touches(r, start, end) ==> (start <= r.start && End(r) <= end) || r.prot == p
  }

  ghost predicate Orderly(s: Space, call: Call) {
    call.Mprotect? ==> WholeRegions(s, call.addr, call.len, call.prot)
  }

  // ---- the calls that do not change protections

  lemma RemovedProts(s: Space, start: U64, size: U64, t: Space)
    requires SameProts(s) && Aligned(start) && Aligned(size)
    requires t.regions == RemoveRange(s.regions, start, size) && t.cells == UnmapCells(s.cells, start, size)
    ensures AllProts(t)
  {
    forall a ensures ProtAt(t.regions, t.cells, a) {
      assert ProtAt(s.regions, s.cells, a);
      if Covered(t.regions, a) {
        SurvivorKeepsTag(s, start, size, a);
      }
    }
  }

  lemma MappedProts(s: Space, start: U64, size: U64, prot: Prot, info: string)
    requires SameProts(s) && CanMap(s.cells, start, size)
    ensures AllProts(Mapped(s, start, size, prot, info))
  {
    var q := Region(start, size, prot, info);
    forall a ensures ProtAt(s.regions + [q], MapCells(s.cells, start, size, prot), a) {
      TagOfConcat(s.regions, [q], a);
      MapCellsAt(s.cells, start, size, prot, a);
      assert ProtAt(s.regions, s.cells, a);
    }
  }

  /** Bytes make no difference. */
  lemma WrittenProts(s: Space, addr: int, data: seq<Byte>)
    requires AllProts(s)
    ensures AllProts(s.(cells := WriteCells(s.cells, addr, data)))
  {
    forall a ensures ProtAt(s.regions, WriteCells(s.cells, addr, data), a) {
      assert ProtAt(s.regions, s.cells, a);
    }
  }

  lemma PlacedProts(s: Space, start: U64, size: U64, prot: U64, flags: U64, fd: U64, file: FileRead)
    requires SameProts(s)
    ensures AllProts(PlaceStep(s, start, size, prot, flags, fd, file).0)
  {
    if CanMap(s.cells, start, size) {
      MappedProts(s, start, size, ProtFromFlags(prot), "[mmap]");
      var placed := Mapped(s, start, size, ProtFromFlags(prot), "[mmap]");
      assert placed == Placed(s, start, size, ProtFromFlags(prot));
      if file.Content? {
        WrittenProts(placed, start, FileBuffer(file.bytes, size));
      }
    }
  }

  lemma NothingToUnmap(cells: Cells, start: U64, size: U64)
    requires NoneMapped(cells, start, size)
    ensures UnmapCells(cells, start, size) == cells
  {
  }

  lemma ClearedProts(s: Space, start: U64, size: U64)
    requires SameProts(s) && Aligned(start) && Aligned(size)
    requires !PartlyMapped(s.cells, start, size) && !Shaves(s.regions, start, size)
    ensures SameProts(Cleared(s, start, size))
  {
    ClearedSame(s, start, size);
    SameIsInv(s);
    if !CanEdit(s.cells, start, size) {
      assert AllMapped(s.cells, start, size) ==> start + size - 1 in s.cells;
      NothingToUnmap(s.cells, start, size);
    }
    RemovedProts(s, start, size, Cleared(s, start, size));
  }

  lemma MmapProts(s: Space, call: Call)
    requires SameProts(s) && call.Mmap? && !Tears(s, call) && !ShavesTop(s, call)
    ensures AllProts(Step(s, call))
  {
    if call.len != 0 && Aligned(call.addr) && MmapTarget(s, call.addr, call.len, call.flags).Some? {
      var start, size := MmapTarget(s, call.addr, call.len, call.flags).value, AlignUp(call.len);
      if IsFixed(call.flags) {
        ClearedProts(s, start, size);
        PlacedProts(Cleared(s, start, size), start, size, call.prot, call.flags, call.fd, call.file);
      } else {
        PlacedProts(s, start, size, call.prot, call.flags, call.fd, call.file);
      }
    }
  }

  lemma BrkProts(s: Space, request: U64)
    requires SameProts(s)
    ensures AllProts(BrkStep(s, request).0)
  {
    var start := AlignUp(MappedHeapEnd(s.regions, s.heapExit));
    var size := SatSub(AlignUp(request), start);
    var t := BrkStep(s, request).0;
    if CanMap(s.cells, start, size) {
      var grown := Mapped(s, start, size, PROT_ALL, HEAP);
      MappedProts(s, start, size, PROT_ALL, HEAP);
      assert (t.regions == s.regions && t.cells == s.cells) || (t.regions == grown.regions && t.cells == grown.cells);
    } else {
      assert t.regions == s.regions && t.cells == s.cells;
    }
  }

  // ---- mprotect

  /** The record of an address before and after the update, by the region that makes it. */
  lemma {:induction false} TagReprotected(rs: seq<Region>, start: U64, end: U64, p: Prot, a: int) returns (r: Region)
    requires Covered(rs, a)
    ensures r in rs && Has(r, a) && Tag(rs, a) == Some((r.prot, r.info))
    ensures Tag(Reprotected(rs, start, end, p), a) == Some((ReprotectedOne(r, start, end, p).prot, r.info))
  {
    if Has(rs[0], a) {
      r := rs[0];
    } else {
      assert Tag(rs, a) == Tag(rs[1..], a);
      r := TagReprotected(rs[1..], start, end, p, a);
      assert Reprotected(rs, start, end, p)[1..] == Reprotected(rs[1..], start, end, p);
    }
  }

  /** The end of a region that reaches 2^64 wraps to 0 in the update, so that no request is seen to
      touch it. */
  predicate SeenToTouch(r: Region, start: int, end: int) {
    Touches(r, start, end) && End(r) <= MAX_U64
  }

  lemma ReprotectedAt(s: Space, start: U64, end: U64, p: Prot, r: Region, a: int)
    requires SameProts(s) && r in s.regions && Has(r, a)
    ensures var cells := ProtectCells(s.cells, start, SatSub(end, start), p);
      a in cells && (ReprotectedOne(r, start, end, p).prot == cells[a].prot
                     <==> (SeenToTouch(r, start, end) <==> start <= a < end) || r.prot == p)
  {
    OnlyOneHas(s, r, a);
    assert Covered(s.regions, a) && ProtAt(s.regions, s.cells, a) && Sized(r);
  }

  lemma MprotectKeeps(s: Space, addr: U64, len: U64, prot: U64)
    requires SameProts(s) && WholeRegions(s, addr, len, prot)
    ensures AllProts(MprotectStep(s, addr, len, prot).0)
  {
    var start, end, p := AlignDown(addr), AlignUp(SatAdd(addr, len)), ProtFromFlags(prot);
    if len != 0 && CanEdit(s.cells, start, SatSub(end, start)) {
      var cells := ProtectCells(s.cells, start, SatSub(end, start), p);
      forall a ensures ProtAt(Reprotected(s.regions, start, end, p), cells, a) {
        if a in cells {
          var r := TagReprotected(s.regions, start, end, p, a);
          ReprotectedAt(s, start, end, p, r, a);
        }
      }
    }
  }

  /** An address of a region that is changed in part where record and engine fall apart: one outside
      the range or, where the update has not seen the region, one inside. */
  lemma MprotectBreaks(s: Space, addr: U64, len: U64, prot: U64)
    requires SameProts(s) && !WholeRegions(s, addr, len, prot)
    ensures !AllProts(MprotectStep(s, addr, len, prot).0)
  {
    var start, end, p := AlignDown(addr), AlignUp(SatAdd(addr, len)), ProtFromFlags(prot);
    var r :| r in s.regions && Touches(r, start, end) && !(start <= r.start && End(r) <= end) && r.prot != p;
    var a := if End(r) > MAX_U64 then if r.start < start then start else r.start
             else if r.start < start then r.start else End(r) - 1;
    assert Sized(r) && Has(r, a);
    var q := TagReprotected(s.regions, start, end, p, a);
    assert q == r by { RegionsApart(s, q, r); }
    ReprotectedAt(s, start, end, p, r, a);
    var t := MprotectStep(s, addr, len, prot).0;
    assert Covered(t.regions, a);
    assert !ProtAt(t.regions, t.cells, a);
  }

  /** What a granted mprotect puts on record: a region that has an address of the range changes as a whole,
      unless it reaches 2^64, to the protection of bits 0, 1 and 2; every other record stays. */
  lemma MprotectRecords(s: Space, addr: U64, len: U64, prot: U64, r: Region, a: int)
    requires Same(s) && r in s.regions && Has(r, a) && MprotectStep(s, addr, len, prot).1 == Ret(0)
    ensures var record := Tag(MprotectStep(s, addr, len, prot).0.regions, a);
      var start, end := AlignDown(addr), AlignUp(SatAdd(addr, len));
      && record.Some? && record.value.1 == r.info
      && record.value.0 == if r.start < end && start < r.start as int + r.size <= 0xFFFF_FFFF_FFFF_FFFF
                           then Prot(prot % 2 == 1, prot / 2 % 2 == 1, prot / 4 % 2 == 1) else r.prot
  {
    var start, end, p := AlignDown(addr), AlignUp(SatAdd(addr, len)), ProtFromFlags(prot);
    assert NegErrno(EINVAL) != 0;
    assert Covered(s.regions, a) && Sized(r);
    OnlyOneHas(s, r, a);
    var q := TagReprotected(s.regions, start, end, p, a);
    assert q == r by { RegionsApart(s, q, r); }
  }

  // ---- steps and runs

  lemma StepKeepsProts(s: Space, call: Call)
    requires SameProts(s) && !Tears(s, call) && !ShavesTop(s, call) && Orderly(s, call)
    ensures AllProts(Step(s, call))
  {
    match call
    case Brk(request) => BrkProts(s, request);
    case Mmap(_, _, _, _, _, _) => MmapProts(s, call);
    case Mprotect(addr, len, prot) => MprotectKeeps(s, addr, len, prot);
    case Munmap(addr, len) =>
      if MunmapStep(s, addr, len).1 != Fail(EINVAL) {
        RemovedProts(s, addr, AlignUp(len), Step(s, call));
      }
    case Store(addr, data) => WrittenProts(s, addr, data);
    case LoaderMap(addr, size, p, info) =>
      if CanMap(s.cells, addr, size) {
        MappedProts(s, addr, size, p, info);
      }
  }

  /** Recorded and enforced protections stay the same through a call if and only if the call neither
      tears nor shaves a mapping and, if it is an mprotect, changes no region in part. */
  lemma StepProts(s: Space, call: Call)
    requires SameProts(s)
    ensures SameProts(Step(s, call)) <==> !Tears(s, call) && !ShavesTop(s, call) && Orderly(s, call)
  {
    StepSame(s, call);
    if !Tears(s, call) && !ShavesTop(s, call) && Orderly(s, call) {
      StepKeepsProts(s, call);
    } else if !Orderly(s, call) {
      MprotectBreaks(s, call.addr, call.len, call.prot);
    }
  }

  /** A careful run that changes the protection of no region in part. */
  ghost predicate CarefulProts(s: Space, calls: seq<Call>)
    decreases |calls|
  {
    calls == [] ||
    (!Tears(s, calls[0]) && !ShavesTop(s, calls[0]) && Orderly(s, calls[0])
     && CarefulProts(Step(s, calls[0]), calls[1..]))
  }

  /** They stay the same all through a run if and only if every call of it is such a call. */
  lemma {:induction false} RunProts(s: Space, calls: seq<Call>)
    requires SameProts(s)
    ensures Always(SameProts, s, calls) <==> CarefulProts(s, calls)
    decreases |calls|
  {
    AlwaysNext(SameProts, s, calls);
    if calls != [] {
      StepProts(s, calls[0]);
      if SameProts(Step(s, calls[0])) {
        RunProts(Step(s, calls[0]), calls[1..]);
      } else {
        AlwaysNext(SameProts, Step(s, calls[0]), calls[1..]);
      }
    }
  }

  /** A snapshot of a space in order brings back the protections in force, whatever was there before the
      restore, and the whole cell wherever the guest may write; record and engine are in order again. */
  lemma RestoreRepairs(s: Space, snap: Snapshot, u: Space, a: int)
    requires Captured(snap, s) && AllProts(s) && BroughtBack(u, snap)
    ensures AllProts(u) && (Covered(s.regions, a) <==> Covered(u.regions, a))
    ensures Covered(s.regions, a) ==> a in s.cells && a in u.cells && u.cells[a].prot == s.cells[a].prot
    ensures Covered(s.regions, a) && s.cells[a].prot.write ==> u.cells[a] == s.cells[a]
  {
    forall b ensures ProtAt(u.regions, u.cells, b) {
      if Covered(s.regions, b) {
        RestoreBringsBack(s, snap, u, b);
      }
    }
    if Covered(s.regions, a) {
      RestoreBringsBack(s, snap, u, a);
      assert ProtAt(s.regions, s.cells, a);
    }
  }
}
