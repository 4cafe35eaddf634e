/** The guest heap over whole runs: the break, and the regions labelled "[heap]" behind it. */
module Heap {
  import opened Words
  import opened Regions
  import opened Engine
  import opened Emulator
  import opened Syscalls
  import opened AddressSpace

  /** The address lies in a heap region. */
  ghost predicate InHeap(rs: seq<Region>, a: int) {
    exists r :: r in rs && IsHeap(r) && Has(r, a)
  }

  /** The heap regions fill [start, end) without a gap and lie in it. */
  ghost predicate Fills(rs: seq<Region>, start: int, end: int) {
    && start < end && Aligned(end) && end <= LAST_PAGE
    && forall a :: InHeap(rs, a) <==> start <= a < end
  }

  /** The heap regions fill the heap from its start, and the break has not passed their end. */
  ghost predicate HeapTo(s: Space, end: int) {
    Fills(s.regions, s.heapStart, end) && s.heapStart <= s.heapExit <= end
  }

  ghost predicate HeapOk(s: Space) {
    exists end :: HeapTo(s, end)
  }

  lemma FillEndIsUnique(rs: seq<Region>, start: int, e: int, f: int)
    requires Fills(rs, start, e) && Fills(rs, start, f)
    ensures e == f
  {
    assert InHeap(rs, e - 1) && InHeap(rs, f - 1);
  }

  /** The end of the heap is what brk computes. */
  lemma EndOfHeap(s: Space, end: int, default: U64)
    requires AllSound(s.regions) && HeapTo(s, end)
    ensures MappedHeapEnd(s.regions, default) == end
    ensures exists r :: r in s.regions && IsHeap(r)
  {
    MappedHeapEndIsMax(s.regions, default);
    assert InHeap(s.regions, end - 1);
    forall q | q in s.regions && IsHeap(q) ensures WrapAdd(q.start, q.size) == End(q) <= end {
      assert Sound(q) && Has(q, End(q) - 1) && InHeap(s.regions, End(q) - 1);
    }
  }

  // ---- what each kind of call does to the heap regions

  lemma InHeapTag(rs: seq<Region>, a: int)
    requires Disjoint(rs)
    ensures InHeap(rs, a) <==> Tag(rs, a).Some? && Tag(rs, a).value.1 == HEAP
  {
    if Tag(rs, a).Some? {
      var r :| r in rs && Has(r, a);
      forall q | q in rs && Has(q, a) ensures Tag(rs, a) == Some((q.prot, q.info)) {
        var i :| 0 <= i < |rs| && rs[i] == q;
        TagOfMember(rs, i, a);
      }
    }
  }

  lemma HeapOfRemoved(rs: seq<Region>, start: U64, size: U64, a: int)
    requires Disjoint(rs) && AllSound(rs) && Aligned(start) && Aligned(size)
    requires InHeap(rs, a) ==> a < MAX_U64
    ensures InHeap(RemoveRange(rs, start, size), a) <==> InHeap(rs, a) && !InRange(a, start, size)
  {
    RemoveRangeKeepsShape(rs, start, size);
    if a < MAX_U64 {
      RemoveRangeTags(rs, start, size, a);
      InHeapTag(rs, a);
      InHeapTag(RemoveRange(rs, start, size), a);
    } else if size != 0 && InHeap(RemoveRange(rs, start, size), a) {
      var q :| q in RemoveRange(rs, start, size) && IsHeap(q) && Has(q, a);
      var r := RemovedParent(rs, start, SatAdd(start, size), q);
      assert InHeap(rs, a);
    }
  }

  /** A range off the heap, or all of its end above the break. */
  predicate Spared(heapStart: int, heapExit: int, end: int, start: int, size: int) {
    || size == 0 || start + size <= heapStart || end <= start
    || (heapStart < start && heapExit <= start && end <= start + size)
  }

  lemma HeapCut(s: Space, t: Space, end: int, start: U64, size: U64)
    requires Inv(s) && HeapTo(s, end) && Aligned(start) && Aligned(size)
    requires t.regions == RemoveRange(s.regions, start, size)
    requires t.heapStart == s.heapStart && t.heapExit == s.heapExit
    ensures HeapOk(t) <==> Spared(s.heapStart, s.heapExit, end, start, size)
  {
    forall a ensures InHeap(t.regions, a) <==> s.heapStart <= a < end && !InRange(a, start, size) {
      HeapOfRemoved(s.regions, start, size, a);
    }
    if Spared(s.heapStart, s.heapExit, end, start, size) {
      var whole := size == 0 || start + size <= s.heapStart || end <= start;
      assert HeapTo(t, if whole then end else start);
    }
    if HeapOk(t) {
      var e :| HeapTo(t, e);
      CutIsSpared(s, t, end, start, size, e);
    }
  }

  lemma CutIsSpared(s: Space, t: Space, end: int, start: U64, size: U64, e: int)
    requires HeapTo(s, end) && HeapTo(t, e) && t.heapStart == s.heapStart && t.heapExit == s.heapExit
    requires forall a :: InHeap(t.regions, a) <==> s.heapStart <= a < end && !InRange(a, start, size)
    ensures Spared(s.heapStart, s.heapExit, end, start, size)
  {
    assert InHeap(t.regions, s.heapStart);
    assert InHeap(t.regions, start) <==> s.heapStart <= start < e;
    assert InHeap(t.regions, start + size) <==> s.heapStart <= start + size < e;
  }

  lemma HeapOfAppend(rs: seq<Region>, q: Region, a: int)
    ensures InHeap(rs + [q], a) <==> InHeap(rs, a) || (IsHeap(q) && Has(q, a))
  {
    assert forall r :: r in rs + [q] <==> r in rs || r == q;
  }

  /** Another heap region fits only at the end of the heap. */
  lemma HeapAdded(s: Space, end: int, start: U64, size: U64, p: Prot)
    requires Inv(s) && HeapTo(s, end) && CanMap(s.cells, start, size)
    ensures HeapOk(Mapped(s, start, size, p, HEAP)) <==> start == end && start + size <= LAST_PAGE
    ensures start == end && start + size <= LAST_PAGE ==> HeapTo(Mapped(s, start, size, p, HEAP), start + size)
  {
    var t := Mapped(s, start, size, p, HEAP);
    forall a ensures InHeap(t.regions, a) <==> s.heapStart <= a < end || InRange(a, start, size) {
      HeapOfAppend(s.regions, Region(start, size, p, HEAP), a);
    }
    AlignedSums(start, size);
    assert start == end && start + size <= LAST_PAGE ==> HeapTo(t, start + size);
    if HeapOk(t) {
      var e :| HeapTo(t, e);
      HeapIsOffCells(s, end, start, size);
      assert InHeap(t.regions, start) && InHeap(t.regions, start + size - 1);
      assert InHeap(t.regions, end) <==> s.heapStart <= end < e;
    }
  }

  lemma HeapIsOffCells(s: Space, end: int, start: U64, size: U64)
    requires Inv(s) && HeapTo(s, end) && CanMap(s.cells, start, size)
    ensures start < s.heapStart || end <= start
  {
    if s.heapStart <= start < end {
      assert InHeap(s.regions, start);
      assert Covered(s.regions, start);
    }
  }

  lemma SameHeap(s: Space, t: Space, end: int)
    requires HeapTo(s, end) && t.heapStart == s.heapStart <= t.heapExit <= end
    requires forall a :: InHeap(t.regions, a) <==> InHeap(s.regions, a)
    ensures HeapTo(t, end) && HeapOk(t)
  {
    assert HeapTo(t, end);
  }

  lemma ReprotectedHeap(rs: seq<Region>, start: U64, end: U64, prot: Prot, a: int)
    ensures InHeap(Reprotected(rs, start, end, prot), a) <==> InHeap(rs, a)
  {
    var out := Reprotected(rs, start, end, prot);
    if InHeap(rs, a) {
      var i :| 0 <= i < |rs| && IsHeap(rs[i]) && Has(rs[i], a);
      assert out[i] in out && IsHeap(out[i]) && Has(out[i], a);
    }
    if InHeap(out, a) {
      var i :| 0 <= i < |out| && IsHeap(out[i]) && Has(out[i], a);
      assert rs[i] in rs && IsHeap(rs[i]) && Has(rs[i], a);
    }
  }

  // ---- the calls

  /** With the heap in order, brk either moves the break inside it or appends one region to it. */
  lemma BrkCases(s: Space, end: U64, request: U64)
    requires MappedHeapEnd(s.regions, s.heapExit) == end && Aligned(end) && end <= LAST_PAGE
    requires s.heapStart <= s.heapExit <= end
    ensures var t := BrkStep(s, request).0;
      && t.heapStart == s.heapStart <= t.heapExit
      && ((t.regions == s.regions && t.heapExit <= end)
          || (end < t.heapExit <= LAST_PAGE && CanMap(s.cells, end, t.heapExit - end)
              && t.regions == s.regions + [Region(end, t.heapExit - end, PROT_ALL, HEAP)]))
  {
    assert AlignUp(end) == end;
  }

  lemma BrkHeap(s: Space, end: int, request: U64) returns (end': int)
    requires Inv(s) && HeapTo(s, end)
    ensures HeapTo(BrkStep(s, request).0, end') && end <= end'
    ensures BrkStep(s, request).0.heapStart == s.heapStart
  {
    var t := BrkStep(s, request).0;
    EndOfHeap(s, end, s.heapExit);
    BrkCases(s, end, request);
    if t.regions == s.regions {
      end' := end;
      SameHeap(s, t, end);
    } else {
      end' := t.heapExit;
      HeapAdded(s, end, end, end' - end, PROT_ALL);
      assert t.regions == Mapped(s, end, end' - end, PROT_ALL, HEAP).regions;
    }
  }

  lemma PlacedHeap(s: Space, start: U64, size: U64, prot: U64, flags: U64, fd: U64, file: FileRead)
    ensures var t := PlaceStep(s, start, size, prot, flags, fd, file).0;
      && (HeapOk(t) <==> HeapOk(s)) && t.heapStart == s.heapStart
  {
    var t := PlaceStep(s, start, size, prot, flags, fd, file).0;
    forall a ensures InHeap(t.regions, a) <==> InHeap(s.regions, a) {
      HeapOfAppend(s.regions, Region(start, size, ProtFromFlags(prot), "[mmap]"), a);
    }
    if HeapOk(s) {
      var end :| HeapTo(s, end);
      SameHeap(s, t, end);
    }
    if HeapOk(t) {
      var end :| HeapTo(t, end);
      SameHeap(t, s, end);
    }
  }

  /** The condition: what a call takes off the list spares the heap, and a loader mapping that takes the
      heap's label goes on where the heap ends. All of it can be told before the call. */
  ghost predicate SparesHeap(s: Space, call: Call) {
    var end := MappedHeapEnd(s.regions, s.heapExit);
    match call
    case Munmap(addr, len) =>
      addr != 0 && len != 0 && Aligned(addr) && CanEdit(s.cells, addr, AlignUp(len)) ==>
        Spared(s.heapStart, s.heapExit, end, addr, AlignUp(len))
    case Mmap(addr, len, _, flags, _, _) =>
      len != 0 && Aligned(addr) && IsFixed(flags) && MmapTarget(s, addr, len, flags).Some? ==>
        Spared(s.heapStart, s.heapExit, end, MmapTarget(s, addr, len, flags).value, AlignUp(len))
    case LoaderMap(addr, size, _, info) =>
      CanMap(s.cells, addr, size) && info == HEAP ==> addr == end && addr + size as int <= LAST_PAGE
    case _ => true
  }

  lemma MmapHeap(s: Space, end: int, call: Call)
    requires Inv(s) && HeapTo(s, end) && call.Mmap?
    ensures HeapOk(Step(s, call)) <==> SparesHeap(s, call)
    ensures Step(s, call).heapStart == s.heapStart
  {
    EndOfHeap(s, end, s.heapExit);
    if call.len != 0 && Aligned(call.addr) && MmapTarget(s, call.addr, call.len, call.flags).Some? {
      var start, size := MmapTarget(s, call.addr, call.len, call.flags).value, AlignUp(call.len);
      var cleared := if IsFixed(call.flags) then Cleared(s, start, size) else s;
      if IsFixed(call.flags) {
        HeapCut(s, cleared, end, start, size);
      }
      PlacedHeap(cleared, start, size, call.prot, call.flags, call.fd, call.file);
    }
  }

  lemma MunmapHeap(s: Space, end: int, addr: U64, len: U64)
    requires Inv(s) && HeapTo(s, end)
    ensures HeapOk(MunmapStep(s, addr, len).0) <==> SparesHeap(s, Munmap(addr, len))
    ensures MunmapStep(s, addr, len).0.heapStart == s.heapStart
  {
    EndOfHeap(s, end, s.heapExit);
    if MunmapStep(s, addr, len).1 != Fail(EINVAL) {
      HeapCut(s, MunmapStep(s, addr, len).0, end, addr, AlignUp(len));
    }
  }

  lemma MprotectHeap(s: Space, end: int, addr: U64, len: U64, prot: U64)
    requires HeapTo(s, end)
    ensures HeapOk(MprotectStep(s, addr, len, prot).0)
    ensures MprotectStep(s, addr, len, prot).0.heapStart == s.heapStart
  {
    var from, to := AlignDown(addr), AlignUp(SatAdd(addr, len));
    forall a ensures InHeap(Reprotected(s.regions, from, to, ProtFromFlags(prot)), a) <==> InHeap(s.regions, a) {
      ReprotectedHeap(s.regions, from, to, ProtFromFlags(prot), a);
    }
    SameHeap(s, MprotectStep(s, addr, len, prot).0, end);
  }

  lemma LoaderHeap(s: Space, end: int, addr: U64, size: U64, p: Prot, info: string)
    requires Inv(s) && HeapTo(s, end)
    ensures HeapOk(Step(s, LoaderMap(addr, size, p, info))) <==> SparesHeap(s, LoaderMap(addr, size, p, info))
  {
    EndOfHeap(s, end, s.heapExit);
    if CanMap(s.cells, addr, size) {
      if info == HEAP {
        HeapAdded(s, end, addr, size, p);
      } else {
        forall a ensures InHeap(Mapped(s, addr, size, p, info).regions, a) <==> InHeap(s.regions, a) {
          HeapOfAppend(s.regions, Region(addr, size, p, info), a);
        }
        SameHeap(s, Mapped(s, addr, size, p, info), end);
      }
    }
  }

  /** The heap stays filled up to the break through a call if and only if the call spares it. */
  lemma StepHeap(s: Space, call: Call)
    requires Inv(s) && HeapOk(s)
    ensures HeapOk(Step(s, call)) <==> SparesHeap(s, call)
    ensures Step(s, call).heapStart == s.heapStart
  {
    var end :| HeapTo(s, end);
    match call
    case Brk(request) => var _ := BrkHeap(s, end, request);
    case Mmap(_, _, _, _, _, _) => MmapHeap(s, end, call);
    case Mprotect(addr, len, prot) => MprotectHeap(s, end, addr, len, prot);
    case Munmap(addr, len) => MunmapHeap(s, end, addr, len);
    case Store(_, _) => SameHeap(s, Step(s, call), end);
    case LoaderMap(addr, size, p, info) => LoaderHeap(s, end, addr, size, p, info);
  }

  ghost predicate SparingRun(s: Space, calls: seq<Call>)
    decreases |calls|
  {
    calls == [] || (SparesHeap(s, calls[0]) && SparingRun(Step(s, calls[0]), calls[1..]))
  }

  /** And all through a run if and only if every call of it does. */
  lemma {:induction false} RunHeap(s: Space, calls: seq<Call>)
    requires Inv(s) && HeapOk(s)
    ensures Always(HeapOk, s, calls) <==> SparingRun(s, calls)
    ensures SparingRun(s, calls) ==> HeapOk(Run(s, calls)) && Run(s, calls).heapStart == s.heapStart
    decreases |calls|
  {
    AlwaysNext(HeapOk, s, calls);
    if calls != [] {
      StepHeap(s, calls[0]);
      StepInv(s, calls[0]);
      if HeapOk(Step(s, calls[0])) {
        RunHeap(Step(s, calls[0]), calls[1..]);
      } else {
        AlwaysNext(HeapOk, Step(s, calls[0]), calls[1..]);
      }
    }
  }

  /** In every run that spares the heap, through growth, shrinking and regrowth, every address from the
      heap start up to the break is mapped, and lies in a heap region. */
  lemma HeapIsMapped(s: Space, calls: seq<Call>, a: int)
    requires Inv(s) && HeapOk(s) && SparingRun(s, calls)
    requires s.heapStart <= a < Run(s, calls).heapExit
    ensures a in Run(s, calls).cells && InHeap(Run(s, calls).regions, a)
  {
    RunInv(s, calls);
    RunHeap(s, calls);
    var t := Run(s, calls);
    var end :| HeapTo(t, end);
    assert InHeap(t.regions, a);
    assert Covered(t.regions, a);
  }

  /** What the loaders set up is such a heap, if no section has taken the label already. */
  lemma LoadedHeap(s: Space, start: U64, size: U64)
    requires CanMap(s.cells, start, size) && start + size <= LAST_PAGE
    requires forall r :: r in s.regions ==> !IsHeap(r)
    ensures HeapOk(Step(s, LoaderMap(start, size, PROT_ALL, HEAP)).(heapStart := start, heapExit := start + size))
  {
    var t := Step(s, LoaderMap(start, size, PROT_ALL, HEAP)).(heapStart := start, heapExit := start + size);
    forall a ensures InHeap(t.regions, a) <==> InRange(a, start, size) {
      HeapOfAppend(s.regions, Region(start, size, PROT_ALL, HEAP), a);
    }
    AlignedSums(start, size);
    assert HeapTo(t, start + size);
  }
}
