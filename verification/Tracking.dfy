/** What every run of the memory system calls keeps, torn mappings or not: the extents of regions, and
    that the engine maps whole pages. Which calls leave something mapped that is not on record. */
module Tracking {
  import opened Words
  import opened Regions
  import opened Engine
  import opened Emulator
  import opened Syscalls
  import opened AddressSpace

  datatype Range = Range(start: U64, size: U64)

  /** The range brk maps, if it grows the heap. */
  function BrkRange(s: Space, request: U64): Option<Range> {
    var end, newBreak := MappedHeapEnd(s.regions, s.heapExit), AlignUp(request);
    var start := AlignUp(end);
    if request != 0 && s.heapStart <= newBreak <= HeapLimit(s.regions, end) && end < newBreak
       && CanMap(s.cells, start, SatSub(newBreak, start)) then Some(Range(start, SatSub(newBreak, start)))
    else None
  }

  /** The range a call maps where nothing was mapped or unmaps where all was: its guard, on the state
      before. An overmapping with MAP_FIXED leaves mapped what was. */
  ghost function Flipped(s: Space, call: Call): Option<Range> {
    match call
    case Brk(request) => BrkRange(s, request)
    case Mmap(addr, len, _, flags, _, _) =>
      var target := MmapTarget(s, addr, len, flags);
      if len != 0 && Aligned(addr) && target.Some? && CanMap(s.cells, target.value, AlignUp(len))
      then Some(Range(target.value, AlignUp(len)))
      else None
    case Munmap(addr, len) =>
      if addr != 0 && len != 0 && Aligned(addr) && AlignUp(len) != 0 && CanEdit(s.cells, addr, AlignUp(len))
      then Some(Range(addr, AlignUp(len)))
      else None
    case LoaderMap(addr, size, _, _) => if CanMap(s.cells, addr, size) then Some(Range(addr, size)) else None
    case _ => None
  }

  /** An address is mapped after a call as it was before, except in the flipped range. */
  ghost predicate FlipsAt(was: Cells, now: Cells, range: Option<Range>, a: int) {
    if range.Some? && InRange(a, range.value.start, range.value.size) then a in now <==> a !in was
    else a in now <==> a in was
  }

  lemma PlaceFlips(s: Space, start: U64, size: U64, prot: U64, flags: U64, fd: U64, file: FileRead, a: int)
    ensures a in PlaceStep(s, start, size, prot, flags, fd, file).0.cells <==>
            a in s.cells || (CanMap(s.cells, start, size) && InRange(a, start, size))
  {
    MapCellsAt(s.cells, start, size, ProtFromFlags(prot), a);
  }

  lemma ClearedFlips(s: Space, start: U64, size: U64, a: int)
    requires Aligned(start) && Aligned(size)
    ensures a in Cleared(s, start, size).cells
         || (CanMap(Cleared(s, start, size).cells, start, size) && InRange(a, start, size))
       <==> a in s.cells || (CanMap(s.cells, start, size) && InRange(a, start, size))
  {
    if CanEdit(s.cells, start, size) && size != 0 {
      assert start in s.cells;
      assert NoneMapped(Cleared(s, start, size).cells, start, size);
      assert InRange(a, start, size) ==> a in s.cells;
    } else {
      assert Cleared(s, start, size).cells == s.cells || size == 0;
    }
  }

  lemma MmapFlips(s: Space, call: Call, a: int)
    requires call.Mmap?
    ensures FlipsAt(s.cells, Step(s, call).cells, Flipped(s, call), a)
  {
    if call.len != 0 && Aligned(call.addr) && MmapTarget(s, call.addr, call.len, call.flags).Some? {
      var start, size := MmapTarget(s, call.addr, call.len, call.flags).value, AlignUp(call.len);
      var from := if IsFixed(call.flags) then Cleared(s, start, size) else s;
      TargetIsAligned(s, call.addr, call.len, call.flags);
      ClearedFlips(s, start, size, a);
      PlaceFlips(from, start, size, call.prot, call.flags, call.fd, call.file, a);
    }
  }

  lemma TargetIsAligned(s: Space, addr: U64, len: U64, flags: U64)
    requires Aligned(addr) && MmapTarget(s, addr, len, flags).Some?
    ensures Aligned(MmapTarget(s, addr, len, flags).value)
  {
  }

  lemma BrkFlips(s: Space, request: U64, a: int)
    ensures FlipsAt(s.cells, BrkStep(s, request).0.cells, BrkRange(s, request), a)
  {
    var start := AlignUp(MappedHeapEnd(s.regions, s.heapExit));
    MapCellsAt(s.cells, start, SatSub(AlignUp(request), start), PROT_ALL, a);
  }

  /** A call changes what is mapped in the flipped range and nowhere else. */
  lemma StepFlips(s: Space, call: Call, a: int)
    ensures FlipsAt(s.cells, Step(s, call).cells, Flipped(s, call), a)
  {
    match call
    case Brk(request) => BrkFlips(s, request, a);
    case Mmap(_, _, _, _, _, _) => MmapFlips(s, call, a);
    case Mprotect(_, _, _) =>
    case Munmap(addr, len) =>
    case Store(_, _) =>
    case LoaderMap(addr, size, p, _) => MapCellsAt(s.cells, addr, size, p, a);
  }

  lemma FlippedWhole(s: Space, call: Call)
    requires Flipped(s, call).Some?
    ensures var r := Flipped(s, call).value;
      0 < r.size && (AllMapped(s.cells, r.start, r.size) || NoneMapped(s.cells, r.start, r.size))
  {
  }

  lemma FlippedOnPages(s: Space, call: Call)
    requires Flipped(s, call).Some?
    ensures var r := Flipped(s, call).value;
      Aligned(r.start) && Aligned(r.size) && r.start + r.size as int <= MAX_U64 + 1
  {
  }

  // ---- whole pages

  predicate PageWhole(cells: Cells, a: U64) {
    a in cells <==> AlignDown(a) in cells
  }

  /** Inside the address space, and a page is mapped as a whole or not at all. */
  ghost predicate WholePages(cells: Cells) {
    && (forall a :: a in cells ==> 0 <= a <= MAX_U64)
    && (forall a: U64 :: PageWhole(cells, a))
  }

  lemma InRangeByPage(start: U64, size: U64, a: U64)
    requires Aligned(start) && Aligned(size)
    ensures InRange(a, start, size) <==> InRange(AlignDown(a), start, size)
  {
    AlignedSums(start, size);
  }

  lemma StepWholePages(s: Space, call: Call)
    requires WholePages(s.cells)
    ensures WholePages(Step(s, call).cells)
  {
    var now, range := Step(s, call).cells, Flipped(s, call);
    forall a ensures FlipsAt(s.cells, now, range, a) {
      StepFlips(s, call, a);
    }
    if range.Some? {
      FlippedOnPages(s, call);
    }
    forall a | a in now ensures 0 <= a <= MAX_U64 {
      assert FlipsAt(s.cells, now, range, a);
    }
    forall a: U64 ensures PageWhole(now, a) {
      assert PageWhole(s.cells, a);
      assert FlipsAt(s.cells, now, range, a) && FlipsAt(s.cells, now, range, AlignDown(a));
      if range.Some? {
        InRangeByPage(range.value.start, range.value.size, a);
      }
    }
  }

  lemma MappedShaped(s: Space, start: U64, size: U64, prot: Prot, info: string)
    requires AllShaped(s.regions) && CanMap(s.cells, start, size)
    ensures AllShaped(Mapped(s, start, size, prot, info).regions)
  {
    AlignedSums(start, size);
    forall r | r in Mapped(s, start, size, prot, info).regions ensures Shaped(r) {
      assert r in s.regions || r == Region(start, size, prot, info);
    }
  }

  lemma PlaceShaped(s: Space, start: U64, size: U64, prot: U64, flags: U64, fd: U64, file: FileRead)
    requires AllShaped(s.regions)
    ensures AllShaped(PlaceStep(s, start, size, prot, flags, fd, file).0.regions)
  {
    if CanMap(s.cells, start, size) {
      MappedShaped(s, start, size, ProtFromFlags(prot), "[mmap]");
    }
  }

  lemma MmapShaped(s: Space, call: Call)
    requires AllShaped(s.regions) && call.Mmap?
    ensures AllShaped(Step(s, call).regions)
  {
    if call.len != 0 && Aligned(call.addr) && MmapTarget(s, call.addr, call.len, call.flags).Some? {
      var start, size := MmapTarget(s, call.addr, call.len, call.flags).value, AlignUp(call.len);
      TargetIsAligned(s, call.addr, call.len, call.flags);
      RemoveRangeKeepsShaped(s.regions, start, size);
      PlaceShaped(if IsFixed(call.flags) then Cleared(s, start, size) else s, start, size,
                  call.prot, call.flags, call.fd, call.file);
    }
  }

  lemma ReprotectedShaped(rs: seq<Region>, start: U64, end: U64, prot: Prot)
    requires AllShaped(rs)
    ensures AllShaped(Reprotected(rs, start, end, prot))
  {
    var out := Reprotected(rs, start, end, prot);
    forall r | r in out ensures Shaped(r) {
      var i :| 0 <= i < |out| && out[i] == r;
      assert rs[i] in rs && Shaped(rs[i]) && End(r) == End(rs[i]);
    }
  }

  lemma StepShaped(s: Space, call: Call)
    requires AllShaped(s.regions)
    ensures AllShaped(Step(s, call).regions)
  {
    match call
    case Brk(request) =>
      var start := AlignUp(MappedHeapEnd(s.regions, s.heapExit));
      var size := SatSub(AlignUp(request), start);
      if CanMap(s.cells, start, size) {
        MappedShaped(s, start, size, PROT_ALL, HEAP);
      }
    case Mmap(_, _, _, _, _, _) => MmapShaped(s, call);
    case Mprotect(addr, len, prot) =>
      ReprotectedShaped(s.regions, AlignDown(addr), AlignUp(SatAdd(addr, len)), ProtFromFlags(prot));
    case Munmap(addr, len) =>
      if Aligned(addr) {
        RemoveRangeKeepsShaped(s.regions, addr, AlignUp(len));
      }
    case Store(_, _) =>
    case LoaderMap(addr, size, p, info) =>
      if CanMap(s.cells, addr, size) {
        MappedShaped(s, addr, size, p, info);
      }
  }

  /** The invariant, regions that end on a page or a byte short of 2^64, and whole pages in the engine. */
  ghost predicate Tracked(s: Space) {
    Inv(s) && AllShaped(s.regions) && WholePages(s.cells)
  }

  /** Each call keeps this: no condition on its arguments. */
  lemma StepTracked(s: Space, call: Call)
    requires Tracked(s)
    ensures Tracked(Step(s, call))
  {
    StepInv(s, call);
    StepShaped(s, call);
    StepWholePages(s, call);
  }

  /** And so does every run, whether it tears or shaves mappings or not. */
  lemma {:induction false} RunTracked(s: Space, calls: seq<Call>)
    requires Tracked(s)
    ensures Tracked(Run(s, calls))
    decreases |calls|
  {
    if calls != [] {
      StepTracked(s, calls[0]);
      RunTracked(Step(s, calls[0]), calls[1..]);
    }
  }

  lemma CoveredByPage(rs: seq<Region>, a: U64)
    requires AllSized(rs)
    ensures Covered(rs, a) <==> Covered(rs, AlignDown(a))
  {
    forall r | r in rs ensures Has(r, a) <==> Has(r, AlignDown(a)) {
      assert Sized(r);
      InRangeByPage(r.start, r.size, a);
    }
  }

  lemma SameIsTracked(s: Space)
    requires Same(s)
    ensures Tracked(s)
  {
    SameIsInv(s);
    SizedIsShaped(s.regions);
    forall a: U64 ensures PageWhole(s.cells, a) {
      CoveredByPage(s.regions, a);
    }
  }

  // ---- what is mapped and not on record

  /** Nothing is lost, or nothing but the last address of all. */
  ghost predicate OnRecord(s: Space) {
    Tracked(s) && forall a | Lost(s, a) :: a == MAX_U64
  }

  /** It is the agreement of list and engine as soon as the last page is out of use. */
  lemma AgreeIsOnRecord(s: Space)
    ensures Agree(s) <==> OnRecord(s) && MAX_U64 !in s.cells
  {
    if Agree(s) {
      AgreeIsSame(s);
      SameIsTracked(s);
    }
    if OnRecord(s) && MAX_U64 !in s.cells {
      assert PageWhole(s.cells, MAX_U64);
      forall r | r in s.regions ensures Paged(r) {
        assert Shaped(r);
        ShapedAtTop(r);
        assert !Has(r, LAST_PAGE) by { assert Has(r, LAST_PAGE) ==> Covered(s.regions, LAST_PAGE); }
        AlignedSums(End(r), r.start);
      }
      forall a ensures a in s.cells <==> Covered(s.regions, a) {
        assert a in s.cells && !Covered(s.regions, a) ==> Lost(s, a);
      }
    }
  }

  /** Of a range that is mapped in part, a page start is mapped; clearing it loses that address. */
  lemma TearingLoses(s: Space, start: U64, size: U64) returns (p: int)
    requires WholePages(s.cells) && Aligned(start) && Aligned(size) && PartlyMapped(s.cells, start, size)
    ensures Lost(Cleared(s, start, size), p) && p < MAX_U64
    ensures !CanMap(Cleared(s, start, size).cells, start, size)
  {
    var a :| start <= a < start + size && a in s.cells;
    p := AlignDown(a);
    assert PageWhole(s.cells, a);
    InRangeByPage(start, size, a);
    RemoveRangeTags(s.regions, start, size, p);
    assert Cleared(s, start, size).cells == s.cells;
  }

  lemma StaysOnRecord(s: Space, t: Space, start: U64, size: U64, a: int)
    requires a in t.cells ==> a in s.cells && !InRange(a, start, size)
    requires t.regions == RemoveRange(s.regions, start, size)
    requires Lost(s, a) ==> a == MAX_U64
    ensures Lost(t, a) ==> a >= MAX_U64
  {
    if a < MAX_U64 {
      RemoveRangeTags(s.regions, start, size, a);
    }
  }

  lemma MappedLost(s: Space, start: U64, size: U64, prot: Prot, info: string, a: int)
    ensures Lost(Mapped(s, start, size, prot, info), a) <==> Lost(s, a) && !InRange(a, start, size)
  {
    CoveredByAppend(s.regions, Region(start, size, prot, info), a);
    MapCellsAt(s.cells, start, size, prot, a);
  }

  lemma PlaceLost(s: Space, start: U64, size: U64, prot: U64, flags: U64, fd: U64, file: FileRead, a: int)
    ensures Lost(PlaceStep(s, start, size, prot, flags, fd, file).0, a) <==>
            Lost(s, a) && !(CanMap(s.cells, start, size) && InRange(a, start, size))
  {
    if CanMap(s.cells, start, size) {
      var placed, t := Placed(s, start, size, ProtFromFlags(prot)), PlaceStep(s, start, size, prot, flags, fd, file).0;
      MappedLost(s, start, size, ProtFromFlags(prot), "[mmap]", a);
      assert t.regions == placed.regions && t.cells.Keys == placed.cells.Keys;
      assert a in t.cells.Keys <==> a in placed.cells.Keys;
    }
  }

  lemma ClearedKeeps(s: Space, start: U64, size: U64, a: int)
    requires OnRecord(s) && Aligned(start) && Aligned(size) && !PartlyMapped(s.cells, start, size)
    ensures Lost(Cleared(s, start, size), a) ==> a == MAX_U64
  {
    if AllMapped(s.cells, start, size) && size != 0 {
      assert start + size - 1 in s.cells;
      assert CanEdit(s.cells, start, size);
    }
    StaysOnRecord(s, Cleared(s, start, size), start, size, a);
    assert Lost(Cleared(s, start, size), a) ==> a in s.cells;
  }

  lemma MmapLost(s: Space, call: Call)
    requires OnRecord(s) && call.Mmap?
    ensures (forall a | Lost(Step(s, call), a) :: a == MAX_U64) <==> !Tears(s, call)
  {
    if call.len != 0 && Aligned(call.addr) && MmapTarget(s, call.addr, call.len, call.flags).Some? {
      var start, size := MmapTarget(s, call.addr, call.len, call.flags).value, AlignUp(call.len);
      var from := if IsFixed(call.flags) then Cleared(s, start, size) else s;
      if Tears(s, call) {
        var p := TearingLoses(s, start, size);
        PlaceLost(from, start, size, call.prot, call.flags, call.fd, call.file, p);
        assert Lost(Step(s, call), p);
      } else {
        forall a | Lost(Step(s, call), a) ensures a == MAX_U64 {
          PlaceLost(from, start, size, call.prot, call.flags, call.fd, call.file, a);
          if IsFixed(call.flags) {
            ClearedKeeps(s, start, size, a);
          }
        }
      }
    }
  }

  lemma MunmapLost(s: Space, addr: U64, len: U64, a: int)
    requires OnRecord(s) && Lost(MunmapStep(s, addr, len).0, a)
    ensures a == MAX_U64
  {
    if MunmapStep(s, addr, len).1 != Fail(EINVAL) {
      StaysOnRecord(s, MunmapStep(s, addr, len).0, addr, AlignUp(len), a);
    }
  }

  lemma BrkLost(s: Space, request: U64, a: int)
    requires Lost(BrkStep(s, request).0, a)
    ensures Lost(s, a)
  {
    var start := AlignUp(MappedHeapEnd(s.regions, s.heapExit));
    MappedLost(s, start, SatSub(AlignUp(request), start), PROT_ALL, HEAP, a);
  }

  lemma OtherLost(s: Space, call: Call, a: int)
    requires OnRecord(s) && !call.Mmap? && Lost(Step(s, call), a)
    ensures a == MAX_U64
  {
    match call
    case Brk(request) => BrkLost(s, request, a);
    case Mprotect(addr, len, prot) =>
      ReprotectedKeepsShape(s.regions, AlignDown(addr), AlignUp(SatAdd(addr, len)), ProtFromFlags(prot));
      assert Lost(s, a);
    case Munmap(addr, len) => MunmapLost(s, addr, len, a);
    case Store(_, _) => assert Lost(s, a);
    case LoaderMap(addr, size, p, info) => MappedLost(s, addr, size, p, info, a);
  }

  /** A call loses an address that is not the last one if and only if it overmaps a partly mapped range
      with MAP_FIXED. */
  lemma StepOnRecord(s: Space, call: Call)
    requires OnRecord(s)
    ensures OnRecord(Step(s, call)) <==> !Tears(s, call)
  {
    StepTracked(s, call);
    if call.Mmap? {
      MmapLost(s, call);
    } else {
      forall a | Lost(Step(s, call), a) ensures a == MAX_U64 {
        OtherLost(s, call, a);
      }
    }
  }
}
