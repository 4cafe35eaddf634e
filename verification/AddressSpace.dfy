/** What every run of the memory system calls keeps: the region list against the engine. */
module AddressSpace {
  import opened Words
  import opened Regions
  import opened Engine
  import opened Emulator
  import opened Syscalls

  /** One event of a run. Store is the guest writing its own memory, whatever the bytes; LoaderMap
      is any mapping the emulator makes for itself (segments, stack, heap, TLS, trap page). */
  datatype Call =
    | Brk(request: U64)
    | Mmap(addr: U64, len: U64, prot: U64, flags: U64, fd: U64, file: FileRead)
    | Mprotect(addr: U64, len: U64, prot: U64)
    | Munmap(addr: U64, len: U64)
    | Store(addr: U64, data: seq<Byte>)
    | LoaderMap(addr: U64, size: U64, p: Prot, info: string)

  ghost function Step(s: Space, call: Call): Space {
    match call
    case Brk(request) => BrkStep(s, request).0
    case Mmap(addr, len, prot, flags, fd, file) => MmapStep(s, addr, len, prot, flags, fd, file).0
    case Mprotect(addr, len, prot) => MprotectStep(s, addr, len, prot).0
    case Munmap(addr, len) => MunmapStep(s, addr, len).0
    case Store(addr, data) => s.(cells := WriteCells(s.cells, addr, data))
    case LoaderMap(addr, size, p, info) => if CanMap(s.cells, addr, size) then Mapped(s, addr, size, p, info) else s
  }

  ghost function Run(s: Space, calls: seq<Call>): Space
    decreases |calls|
  {
    if calls == [] then s else Run(Step(s, calls[0]), calls[1..])
  }

  ghost function Mapped(s: Space, start: U64, size: U64, prot: Prot, info: string): Space {
    s.(regions := s.regions + [Region(start, size, prot, info)], cells := MapCells(s.cells, start, size, prot))
  }

  // ---- containment, in every run whatever

  ghost predicate Contained(s: Space) {
    forall a :: Covered(s.regions, a) ==> a in s.cells
  }

  /** Regions are non-empty, start on a page, fit the address space, do not overlap, and everything
      recorded is really mapped. */
  ghost predicate Inv(s: Space) {
    AllSound(s.regions) && Disjoint(s.regions) && Contained(s)
  }

  lemma NothingCommon(r: Region, q: Region)
    requires 0 < r.size && 0 < q.size
    requires forall a :: Has(r, a) ==> !Has(q, a)
    ensures Apart(r, q)
  {
    var a := if r.start > q.start then r.start else q.start;
    assert Has(r, a) ==> !Has(q, a);
  }

  lemma FreshRegionIsApart(s: Space, start: U64, size: U64, q: Region)
    requires Inv(s) && CanMap(s.cells, start, size) && q.start == start && q.size == size
    ensures AllApart(s.regions, [q])
  {
    forall r | r in s.regions ensures Apart(r, q) {
      forall a | Has(r, a) ensures !Has(q, a) {
        assert Covered(s.regions, a);
      }
      NothingCommon(r, q);
    }
  }

  lemma MappedDisjoint(s: Space, start: U64, size: U64, prot: Prot, info: string)
    requires Inv(s) && CanMap(s.cells, start, size)
    ensures Disjoint(Mapped(s, start, size, prot, info).regions)
    ensures AllSound(Mapped(s, start, size, prot, info).regions)
    ensures AllPaged(s.regions) && start + size <= LAST_PAGE ==> AllPaged(Mapped(s, start, size, prot, info).regions)
  {
    var q := Region(start, size, prot, info);
    FreshRegionIsApart(s, start, size, q);
    DisjointConcat(s.regions, [q]);
    assert forall r :: r in s.regions + [q] <==> r in s.regions || r == q;
  }

  lemma MappedCovers(s: Space, start: U64, size: U64, prot: Prot, info: string)
    ensures forall a :: Covered(Mapped(s, start, size, prot, info).regions, a)
                   <==> Covered(s.regions, a) || start <= a < start + size
  {
    var q := Region(start, size, prot, info);
    forall a ensures Covered(s.regions + [q], a) <==> Covered(s.regions, a) || Has(q, a) {
      CoveredByAppend(s.regions, q, a);
    }
  }

  lemma MappedInv(s: Space, start: U64, size: U64, prot: Prot, info: string)
    requires Inv(s) && CanMap(s.cells, start, size)
    ensures Inv(Mapped(s, start, size, prot, info))
  {
    MappedDisjoint(s, start, size, prot, info);
    MappedCovers(s, start, size, prot, info);
  }

  lemma SameShapes(rs: seq<Region>, out: seq<Region>, r: Region)
    requires |out| == |rs| && r in out
    requires forall i :: 0 <= i < |rs| ==> out[i].start == rs[i].start && out[i].size == rs[i].size
    ensures exists q :: q in rs && q.start == r.start && q.size == r.size
  {
    var i :| 0 <= i < |out| && out[i] == r;
    assert rs[i] in rs;
  }

  lemma SameExtents(rs: seq<Region>, out: seq<Region>)
    requires |out| == |rs|
    requires forall i :: 0 <= i < |rs| ==> out[i].start == rs[i].start && out[i].size == rs[i].size
    ensures AllSound(rs) ==> AllSound(out)
    ensures AllSized(rs) ==> AllSized(out)
    ensures AllPaged(rs) ==> AllPaged(out)
    ensures Disjoint(rs) ==> Disjoint(out)
    ensures forall a :: Covered(rs, a) ==> Covered(out, a)
  {
    forall r | r in out
      ensures (AllSound(rs) ==> Sound(r)) && (AllSized(rs) ==> Sized(r)) && (AllPaged(rs) ==> Paged(r))
    {
      SameShapes(rs, out, r);
    }
    forall a | Covered(rs, a) ensures Covered(out, a) {
      var i :| 0 <= i < |rs| && Has(rs[i], a);
      assert out[i] in out && Has(out[i], a);
    }
    if Disjoint(rs) {
      forall i, j | 0 <= i < j < |out| ensures Apart(out[i], out[j]) {
        assert Apart(rs[i], rs[j]);
      }
    }
  }

  lemma ReprotectedKeepsShape(rs: seq<Region>, start: U64, end: U64, prot: Prot)
    ensures AllSound(rs) ==> AllSound(Reprotected(rs, start, end, prot))
    ensures AllSized(rs) ==> AllSized(Reprotected(rs, start, end, prot))
    ensures AllPaged(rs) ==> AllPaged(Reprotected(rs, start, end, prot))
    ensures Disjoint(rs) ==> Disjoint(Reprotected(rs, start, end, prot))
    ensures forall a :: Covered(Reprotected(rs, start, end, prot), a) <==> Covered(rs, a)
  {
    SameExtents(rs, Reprotected(rs, start, end, prot));
    SameExtents(Reprotected(rs, start, end, prot), rs);
  }

  lemma ClearedInv(s: Space, start: U64, size: U64)
    requires Inv(s) && Aligned(start) && Aligned(size)
    ensures Inv(Cleared(s, start, size))
  {
    RemoveRangeKeepsShape(s.regions, start, size);
  }

  lemma PlaceInv(s: Space, start: U64, size: U64, prot: U64, flags: U64, fd: U64, file: FileRead)
    requires Inv(s)
    ensures Inv(PlaceStep(s, start, size, prot, flags, fd, file).0)
  {
    if CanMap(s.cells, start, size) {
      MappedInv(s, start, size, ProtFromFlags(prot), "[mmap]");
    }
  }

  lemma MmapInv(s: Space, addr: U64, len: U64, prot: U64, flags: U64, fd: U64, file: FileRead)
    requires Inv(s)
    ensures Inv(MmapStep(s, addr, len, prot, flags, fd, file).0)
  {
    if len != 0 && Aligned(addr) && MmapTarget(s, addr, len, flags).Some? {
      var start, size := MmapTarget(s, addr, len, flags).value, AlignUp(len);
      var s1 := if IsFixed(flags) then Cleared(s, start, size) else s;
      ClearedInv(s, start, size);
      PlaceInv(s1, start, size, prot, flags, fd, file);
    }
  }

  lemma BrkInv(s: Space, request: U64)
    requires Inv(s)
    ensures Inv(BrkStep(s, request).0)
  {
    var start := AlignUp(MappedHeapEnd(s.regions, s.heapExit));
    var size := SatSub(AlignUp(request), start);
    if CanMap(s.cells, start, size) {
      MappedInv(s, start, size, PROT_ALL, HEAP);
    }
  }

  lemma MprotectInv(s: Space, addr: U64, len: U64, prot: U64)
    requires Inv(s)
    ensures Inv(MprotectStep(s, addr, len, prot).0)
  {
    ReprotectedKeepsShape(s.regions, AlignDown(addr), AlignUp(SatAdd(addr, len)), ProtFromFlags(prot));
  }

  lemma MunmapInv(s: Space, addr: U64, len: U64)
    requires Inv(s)
    ensures Inv(MunmapStep(s, addr, len).0)
  {
    if Aligned(addr) {
      RemoveRangeKeepsShape(s.regions, addr, AlignUp(len));
    }
  }

  /** Each call keeps the invariant: no condition on its arguments. */
  lemma StepInv(s: Space, call: Call)
    requires Inv(s)
    ensures Inv(Step(s, call))
  {
    match call
    case Brk(request) => BrkInv(s, request);
    case Mmap(addr, len, prot, flags, fd, file) => MmapInv(s, addr, len, prot, flags, fd, file);
    case Mprotect(addr, len, prot) => MprotectInv(s, addr, len, prot);
    case Munmap(addr, len) => MunmapInv(s, addr, len);
    case Store(addr, data) =>
    case LoaderMap(addr, size, p, info) =>
      if CanMap(s.cells, addr, size) {
        MappedInv(s, addr, size, p, info);
      }
  }

  /** Over every interleaving of calls, from the empty space or any other sound one. */
  lemma {:induction false} RunInv(s: Space, calls: seq<Call>)
    requires Inv(s)
    ensures Inv(Run(s, calls))
    decreases |calls|
  {
    if calls != [] {
      StepInv(s, calls[0]);
      RunInv(Step(s, calls[0]), calls[1..]);
    }
  }

  // ---- agreement

  /** The list and the engine cover the same addresses. */
  ghost predicate Same(s: Space) {
    && AllSized(s.regions) && Disjoint(s.regions)
    && forall a :: a in s.cells <==> Covered(s.regions, a)
  }

  /** The same, with the last page of the address space out of use. */
  ghost predicate Agree(s: Space) {
    && AllPaged(s.regions) && Disjoint(s.regions)
    && forall a :: a in s.cells <==> Covered(s.regions, a)
  }

  lemma AgreeIsSame(s: Space)
    ensures Agree(s) <==> Same(s) && MAX_U64 !in s.cells
  {
    if Same(s) && MAX_U64 !in s.cells {
      forall r | r in s.regions ensures Paged(r) {
        assert Sized(r) && !Has(r, MAX_U64);
        AlignedSums(r.start, r.size);
        PageBelowTop(End(r));
      }
    }
  }

  predicate PartlyMapped(cells: Cells, start: int, size: nat) {
    !NoneMapped(cells, start, size) && !AllMapped(cells, start, size)
  }

  /** A MAP_FIXED request over a range of which some is mapped and some is not. */
  ghost predicate Tears(s: Space, call: Call) {
    && call.Mmap? && call.len != 0 && Aligned(call.addr) && IsFixed(call.flags)
    && MmapTarget(s, call.addr, call.len, call.flags).Some?
    && PartlyMapped(s.cells, MmapTarget(s, call.addr, call.len, call.flags).value, AlignUp(call.len))
  }

  /** A request that clears part, and not the end, of a region that reaches 2^64. */
  ghost predicate ShavesTop(s: Space, call: Call) {
    match call
    case Munmap(addr, len) =>
      && addr != 0 && len != 0 && Aligned(addr) && CanEdit(s.cells, addr, AlignUp(len))
      && Shaves(s.regions, addr, AlignUp(len))
    case Mmap(addr, len, _, flags, _, _) =>
      && len != 0 && Aligned(addr) && IsFixed(flags) && MmapTarget(s, addr, len, flags).Some?
      && Shaves(s.regions, MmapTarget(s, addr, len, flags).value, AlignUp(len))
    case _ => false
  }

  /** A request for a mapping up to 2^64 that the engine grants. */
  ghost predicate MapsTop(s: Space, call: Call) {
    match call
    case Mmap(addr, len, _, flags, _, _) =>
      && len != 0 && Aligned(addr) && MmapTarget(s, addr, len, flags).Some?
      && CanMap(s.cells, MmapTarget(s, addr, len, flags).value, AlignUp(len))
      && MmapTarget(s, addr, len, flags).value + AlignUp(len) > MAX_U64
    case LoaderMap(addr, size, _, _) => CanMap(s.cells, addr, size) && addr + size > MAX_U64
    case _ => false
  }

  lemma SameIsInv(s: Space)
    requires Same(s)
    ensures Inv(s) && forall a :: a in s.cells ==> 0 <= a <= MAX_U64
  {
    forall r | r in s.regions ensures Sound(r) {
      assert Sized(r);
    }
  }

  lemma AgreeIsInv(s: Space)
    requires Agree(s)
    ensures Inv(s) && forall a :: a in s.cells ==> 0 <= a < LAST_PAGE
  {
  }

  lemma RegionsApart(s: Space, r: Region, q: Region)
    requires Disjoint(s.regions) && r in s.regions && q in s.regions
    ensures r == q || Apart(r, q)
  {
    var i :| 0 <= i < |s.regions| && s.regions[i] == r;
    var j :| 0 <= j < |s.regions| && s.regions[j] == q;
    assert i < j ==> Apart(r, q);
    assert j < i ==> Apart(q, r);
  }

  lemma OnlyOneHas(s: Space, r: Region, a: int)
    requires Disjoint(s.regions) && r in s.regions && Has(r, a)
    ensures Tag(s.regions, a) == Some((r.prot, r.info))
  {
    var i :| 0 <= i < |s.regions| && s.regions[i] == r;
    TagOfMember(s.regions, i, a);
  }

  /** An address that survives a removal keeps its record. */
  lemma SurvivorKeepsTag(s: Space, start: U64, size: U64, a: int)
    requires Same(s) && Aligned(start) && Aligned(size) && Covered(RemoveRange(s.regions, start, size), a)
    ensures Tag(RemoveRange(s.regions, start, size), a) == Tag(s.regions, a)
  {
    if size != 0 {
      SameIsInv(s);
      RemoveRangeKeepsShape(s.regions, start, size);
      var t := s.(regions := RemoveRange(s.regions, start, size));
      var q :| q in t.regions && Has(q, a);
      var r := RemovedParent(s.regions, start, SatAdd(start, size), q);
      OnlyOneHas(t, q, a);
      OnlyOneHas(s, r, a);
    }
  }

  lemma MappedSame(s: Space, start: U64, size: U64, prot: Prot, info: string)
    requires Same(s) && CanMap(s.cells, start, size)
    ensures Same(Mapped(s, start, size, prot, info))
    ensures MAX_U64 in Mapped(s, start, size, prot, info).cells <==> MAX_U64 in s.cells || start + size > MAX_U64
  {
    SameIsInv(s);
    MappedDisjoint(s, start, size, prot, info);
    MappedCovers(s, start, size, prot, info);
    forall r | r in Mapped(s, start, size, prot, info).regions ensures Sized(r) {
      assert r in s.regions || r == Region(start, size, prot, info);
    }
  }

  lemma MappedAgree(s: Space, start: U64, size: U64, prot: Prot, info: string)
    requires Agree(s) && CanMap(s.cells, start, size)
    ensures Agree(Mapped(s, start, size, prot, info)) <==> start + size <= MAX_U64
  {
    AgreeIsSame(s);
    MappedSame(s, start, size, prot, info);
    AgreeIsSame(Mapped(s, start, size, prot, info));
  }

  /** Mapped, but not on record. */
  ghost predicate Lost(s: Space, a: int) {
    a in s.cells && !Covered(s.regions, a)
  }

  /** Of a range that is mapped in part, a page start is mapped. */
  lemma MappedPage(s: Space, start: U64, size: U64) returns (p: int)
    requires Same(s) && Aligned(start) && PartlyMapped(s.cells, start, size)
    ensures start <= p < start + size && p in s.cells && p < MAX_U64
  {
    var a :| start <= a < start + size && a in s.cells;
    var r :| r in s.regions && Has(r, a);
    assert Sized(r);
    p := AlignDown(a);
    PageStartInside(start, a);
    PageStartInside(r.start, a);
    assert Has(r, p);
  }

  lemma PageStartInside(start: U64, a: U64)
    requires Aligned(start) && start <= a
    ensures start <= AlignDown(a) < MAX_U64
  {
  }

  lemma TornLoses(s: Space, start: U64, size: U64) returns (p: int)
    requires Same(s) && Aligned(start) && PartlyMapped(s.cells, start, size)
    ensures Lost(Cleared(s, start, size), p) && !CanMap(Cleared(s, start, size).cells, start, size)
  {
    p := MappedPage(s, start, size);
    RemoveRangeTags(s.regions, start, size, p);
    assert Cleared(s, start, size).cells == s.cells;
  }

  lemma ShavedLoses(s: Space, start: U64, size: U64)
    requires Same(s) && Aligned(start) && Shaves(s.regions, start, size)
    ensures Lost(Cleared(s, start, size), MAX_U64) && !(start <= MAX_U64 < start + size)
  {
    ShavingLosesTop(s.regions, start, size);
  }

  lemma ClearedSame(s: Space, start: U64, size: U64)
    requires Same(s) && Aligned(start) && Aligned(size)
    ensures Same(Cleared(s, start, size)) <==> !PartlyMapped(s.cells, start, size) && !Shaves(s.regions, start, size)
    ensures !PartlyMapped(s.cells, start, size) ==> NoneMapped(Cleared(s, start, size).cells, start, size)
  {
    SameIsInv(s);
    if PartlyMapped(s.cells, start, size) {
      var p := TornLoses(s, start, size);
    } else if Shaves(s.regions, start, size) {
      ShavedLoses(s, start, size);
    } else {
      RemoveRangeSized(s.regions, start, size);
    }
    if size != 0 && AllMapped(s.cells, start, size) {
      assert start + size - 1 in s.cells;
    }
  }

  lemma ClearedAgree(s: Space, start: U64, size: U64)
    requires Agree(s) && Aligned(start) && Aligned(size)
    ensures Agree(Cleared(s, start, size)) <==> !PartlyMapped(s.cells, start, size)
  {
    AgreeIsSame(s);
    ClearedSame(s, start, size);
    AgreeIsSame(Cleared(s, start, size));
    assert forall r :: r in s.regions ==> Paged(r);
  }

  lemma CellsOfMap(s: Space, s': Space)
    requires s'.regions == s.regions && s'.cells.Keys == s.cells.Keys
    ensures Same(s) <==> Same(s')
    ensures Agree(s) <==> Agree(s')
    ensures forall a :: a in s'.cells <==> a in s.cells
  {
    assert forall a :: a in s'.cells <==> a in s'.cells.Keys;
    assert forall a :: a in s.cells <==> a in s.cells.Keys;
  }

  lemma PlacedKeys(s: Space, start: U64, size: U64, prot: U64, flags: U64, fd: U64, file: FileRead)
    requires CanMap(s.cells, start, size)
    ensures var t, placed := PlaceStep(s, start, size, prot, flags, fd, file).0,
                             Mapped(s, start, size, ProtFromFlags(prot), "[mmap]");
      t.regions == placed.regions && t.cells.Keys == placed.cells.Keys
  {
  }

  lemma SameByKeys(placed: Space, t: Space)
    requires Same(placed) && t.regions == placed.regions && t.cells.Keys == placed.cells.Keys
    ensures Same(t) && (MAX_U64 in t.cells <==> MAX_U64 in placed.cells)
  {
    CellsOfMap(placed, t);
  }

  lemma PlaceSame(s: Space, start: U64, size: U64, prot: U64, flags: U64, fd: U64, file: FileRead)
    requires Same(s)
    ensures var t := PlaceStep(s, start, size, prot, flags, fd, file).0;
      && Same(t)
      && (MAX_U64 in t.cells <==> MAX_U64 in s.cells || (CanMap(s.cells, start, size) && start + size > MAX_U64))
  {
    if CanMap(s.cells, start, size) {
      MappedSame(s, start, size, ProtFromFlags(prot), "[mmap]");
      PlacedKeys(s, start, size, prot, flags, fd, file);
      MapCellsAt(s.cells, start, size, ProtFromFlags(prot), MAX_U64);
      SameByKeys(Mapped(s, start, size, ProtFromFlags(prot), "[mmap]"),
                 PlaceStep(s, start, size, prot, flags, fd, file).0);
    }
  }

  /** What is lost stays lost outside the new mapping. */
  lemma PlaceLoses(s: Space, start: U64, size: U64, prot: U64, flags: U64, fd: U64, file: FileRead, a: int)
    requires Lost(s, a) && (CanMap(s.cells, start, size) ==> !InRange(a, start, size))
    ensures Lost(PlaceStep(s, start, size, prot, flags, fd, file).0, a)
  {
    if CanMap(s.cells, start, size) {
      CoveredByAppend(s.regions, Region(start, size, ProtFromFlags(prot), "[mmap]"), a);
      MapCellsAt(s.cells, start, size, ProtFromFlags(prot), a);
    }
  }

  lemma MmapSame(s: Space, call: Call)
    requires Same(s) && call.Mmap?
    ensures Same(Step(s, call)) <==> !Tears(s, call) && !ShavesTop(s, call)
  {
    if call.len != 0 && Aligned(call.addr) && MmapTarget(s, call.addr, call.len, call.flags).Some? {
      var start, size := MmapTarget(s, call.addr, call.len, call.flags).value, AlignUp(call.len);
      var cleared := Cleared(s, start, size);
      if Tears(s, call) {
        var p := TornLoses(s, start, size);
        PlaceLoses(cleared, start, size, call.prot, call.flags, call.fd, call.file, p);
      } else if ShavesTop(s, call) {
        ShavedLoses(s, start, size);
        PlaceLoses(cleared, start, size, call.prot, call.flags, call.fd, call.file, MAX_U64);
      } else if IsFixed(call.flags) {
        ClearedSame(s, start, size);
        PlaceSame(cleared, start, size, call.prot, call.flags, call.fd, call.file);
      } else {
        PlaceSame(s, start, size, call.prot, call.flags, call.fd, call.file);
      }
    }
  }

  lemma MunmapSame(s: Space, addr: U64, len: U64)
    requires Same(s)
    ensures Same(MunmapStep(s, addr, len).0) <==> !ShavesTop(s, Munmap(addr, len))
  {
    if MunmapStep(s, addr, len).1 != Fail(EINVAL) {
      ClearedSame(s, addr, AlignUp(len));
      assert MunmapStep(s, addr, len).0 == Cleared(s, addr, AlignUp(len));
    }
  }

  lemma BrkSame(s: Space, request: U64)
    requires Same(s)
    ensures Same(BrkStep(s, request).0)
    ensures MAX_U64 in BrkStep(s, request).0.cells <==> MAX_U64 in s.cells
  {
    var start := AlignUp(MappedHeapEnd(s.regions, s.heapExit));
    var size := SatSub(AlignUp(request), start);
    if CanMap(s.cells, start, size) {
      MappedSame(s, start, size, PROT_ALL, HEAP);
    }
  }

  lemma MprotectSame(s: Space, addr: U64, len: U64, prot: U64)
    requires Same(s)
    ensures Same(MprotectStep(s, addr, len, prot).0)
    ensures forall a :: a in MprotectStep(s, addr, len, prot).0.cells <==> a in s.cells
  {
    ReprotectedKeepsShape(s.regions, AlignDown(addr), AlignUp(SatAdd(addr, len)), ProtFromFlags(prot));
  }

  /** List and engine cover the same addresses after a call if and only if it neither overmaps a partly
      mapped range with MAP_FIXED nor clears part of a region that reaches 2^64. */
  lemma StepSame(s: Space, call: Call)
    requires Same(s)
    ensures Same(Step(s, call)) <==> !Tears(s, call) && !ShavesTop(s, call)
  {
    match call
    case Brk(request) => BrkSame(s, request);
    case Mmap(_, _, _, _, _, _) => MmapSame(s, call);
    case Mprotect(addr, len, prot) => MprotectSame(s, addr, len, prot);
    case Munmap(addr, len) => MunmapSame(s, addr, len);
    case Store(_, _) => CellsOfMap(s, Step(s, call));
    case LoaderMap(addr, size, p, info) =>
      if CanMap(s.cells, addr, size) {
        MappedSame(s, addr, size, p, info);
      }
  }

  lemma MmapTop(s: Space, call: Call)
    requires Agree(s) && call.Mmap? && !Tears(s, call)
    ensures MAX_U64 in Step(s, call).cells <==> MapsTop(s, call)
  {
    AgreeIsSame(s);
    if call.len != 0 && Aligned(call.addr) && MmapTarget(s, call.addr, call.len, call.flags).Some? {
      var start, size := MmapTarget(s, call.addr, call.len, call.flags).value, AlignUp(call.len);
      var from := if IsFixed(call.flags) then Cleared(s, start, size) else s;
      ClearedAgree(s, start, size);
      AgreeIsSame(from);
      PlaceSame(from, start, size, call.prot, call.flags, call.fd, call.file);
      if MAX_U64 - size < start && size != 0 {
        assert MAX_U64 !in s.cells;
        assert from.cells == s.cells;
      }
    }
  }

  lemma StepTop(s: Space, call: Call)
    requires Agree(s) && !Tears(s, call)
    ensures MAX_U64 in Step(s, call).cells <==> MapsTop(s, call)
  {
    AgreeIsSame(s);
    match call
    case Brk(request) => BrkSame(s, request);
    case Mmap(_, _, _, _, _, _) => MmapTop(s, call);
    case Mprotect(addr, len, prot) => MprotectSame(s, addr, len, prot);
    case Munmap(_, _) =>
    case Store(_, _) => CellsOfMap(s, Step(s, call));
    case LoaderMap(addr, size, p, info) =>
      if CanMap(s.cells, addr, size) {
        MappedSame(s, addr, size, p, info);
      }
  }

  /** The stronger agreement survives a call if and only if the call neither tears a mapping nor is
      granted one up to 2^64. */
  lemma StepAgree(s: Space, call: Call)
    requires Agree(s)
    ensures Agree(Step(s, call)) <==> !Tears(s, call) && !MapsTop(s, call)
  {
    AgreeIsSame(s);
    AgreeIsSame(Step(s, call));
    StepSame(s, call);
    NothingToShave(s, call);
    if !Tears(s, call) {
      StepTop(s, call);
    }
  }

  lemma NothingToShave(s: Space, call: Call)
    requires Agree(s)
    ensures !ShavesTop(s, call)
  {
    assert forall r :: r in s.regions ==> Paged(r);
  }

  // ---- whole runs

  lemma RunPrefix(s: Space, calls: seq<Call>, n: nat)
    requires 0 < n <= |calls|
    ensures Run(s, calls[..n]) == Run(Step(s, calls[0]), calls[1..][..n - 1])
  {
    assert calls[..n][1..] == calls[1..][..n - 1];
  }

  /** The property holds at the start of a run and after each of its calls. */
  ghost predicate Always(p: Space -> bool, s: Space, calls: seq<Call>) {
    forall n: nat :: n <= |calls| ==> p(Run(s, calls[..n]))
  }

  lemma AlwaysNext(p: Space -> bool, s: Space, calls: seq<Call>)
    ensures calls == [] ==> (Always(p, s, calls) <==> p(s))
    ensures calls != [] ==> (Always(p, s, calls) <==> p(s) && Always(p, Step(s, calls[0]), calls[1..]))
    ensures Always(p, s, calls) ==> p(s)
  {
    assert calls[..0] == [];
    if calls != [] {
      var t, rest := Step(s, calls[0]), calls[1..];
      forall n: nat | n < |calls| ensures Run(s, calls[..n + 1]) == Run(t, rest[..n]) {
        RunPrefix(s, calls, n + 1);
      }
      if p(s) && Always(p, t, rest) {
        forall n: nat | n <= |calls| ensures p(Run(s, calls[..n])) {
          assert n != 0 ==> p(Run(t, rest[..n - 1]));
        }
      }
      if Always(p, s, calls) {
        forall n: nat | n <= |rest| ensures p(Run(t, rest[..n])) {
          assert p(Run(s, calls[..n + 1]));
        }
      }
    }
  }

  /** A run without a call that tears or shaves. */
  ghost predicate Careful(s: Space, calls: seq<Call>)
    decreases |calls|
  {
    calls == [] ||
    (!Tears(s, calls[0]) && !ShavesTop(s, calls[0]) && Careful(Step(s, calls[0]), calls[1..]))
  }

  /** List and engine cover the same addresses all through a run if and only if no call of it tears a
      mapping or shaves one. */
  lemma {:induction false} RunSame(s: Space, calls: seq<Call>)
    requires Same(s)
    ensures Always(Same, s, calls) <==> Careful(s, calls)
    decreases |calls|
  {
    AlwaysNext(Same, s, calls);
    if calls != [] {
      StepSame(s, calls[0]);
      if Same(Step(s, calls[0])) {
        RunSame(Step(s, calls[0]), calls[1..]);
      } else {
        AlwaysNext(Same, Step(s, calls[0]), calls[1..]);
      }
    }
  }

  /** A run without a call that tears or maps the last page. */
  ghost predicate Clean(s: Space, calls: seq<Call>)
    decreases |calls|
  {
    calls == [] ||
    (!Tears(s, calls[0]) && !MapsTop(s, calls[0]) && Clean(Step(s, calls[0]), calls[1..]))
  }

  /** The stronger agreement holds all through a run if and only if the run is clean; then it holds at
      its end. */
  lemma {:induction false} RunAgree(s: Space, calls: seq<Call>)
    requires Agree(s)
    ensures Always(Agree, s, calls) <==> Clean(s, calls)
    ensures Clean(s, calls) ==> Agree(Run(s, calls))
    decreases |calls|
  {
    AlwaysNext(Agree, s, calls);
    if calls != [] {
      StepAgree(s, calls[0]);
      if Agree(Step(s, calls[0])) {
        RunAgree(Step(s, calls[0]), calls[1..]);
      } else {
        AlwaysNext(Agree, Step(s, calls[0]), calls[1..]);
      }
    }
  }
}
