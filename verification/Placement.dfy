/** Where the emulator puts mappings nobody gave an address for, and that the engine takes them. */
module Placement {
  import opened Words
  import opened Regions
  import opened Engine
  import opened Mmap
  import opened Emulator
  import opened Syscalls
  import opened AddressSpace

  /** The greatest end in the list, None if it is empty. */
  function HighestEnd(rs: seq<Region>): Option<U64> {
    if rs == [] then None
    else match HighestEnd(rs[1..])
      case Some(rest) => Some(if rest > SatEnd(rs[0]) then rest else SatEnd(rs[0]))
      case None => Some(SatEnd(rs[0]))
  }

  lemma {:induction false} HighestRegion(rs: seq<Region>) returns (top: Region)
    requires rs != []
    ensures top in rs && HighestEnd(rs) == Some(SatEnd(top))
    ensures forall r :: r in rs ==> SatEnd(r) <= SatEnd(top)
  {
    top := rs[0];
    if rs[1..] != [] {
      var rest := HighestRegion(rs[1..]);
      assert forall r :: r in rs <==> r == rs[0] || r in rs[1..];
      if SatEnd(rest) > SatEnd(top) {
        top := rest;
      }
    }
  }

  /** The trap page of `setup_trap`: one page of distance above everything. */
  function TrapAddress(rs: seq<Region>): U64 {
    match HighestEnd(rs)
    case None => 0x1000
    case Some(end) => AlignUp(SatAdd(end, 0x1000))
  }

  /** The load base of an ELF interpreter, `choose_shared_object_base`. */
  function SharedObjectBase(rs: seq<Region>): U64 {
    AlignUp(SatAdd(match HighestEnd(rs) case None => 0 case Some(end) => end, 0x0100_0000))
  }

  /** `setup_trap`. `needed` is what the OS layer says of its exit check, `hooked` whether the engine
      takes the hook that stops at the trap page. A page whose hook is refused stays mapped. */
  method SetupTrap(vk: Valkyrie, needed: bool, hooked: bool) returns (ok: bool)
    modifies vk`exitTrap, vk.mem, vk.uc
    ensures var s := old(vk.AddressSpace());
      if old(vk.exitTrap).Some? || !needed then
        ok && vk.exitTrap == old(vk.exitTrap) && vk.AddressSpace() == s
      else
        var call := LoaderMap(TrapAddress(s.regions), 0x1000, PROT_ALL, "[Stop guard page]");
        && ok == (CanMap(s.cells, TrapAddress(s.regions), 0x1000) && hooked)
        && vk.AddressSpace() == Step(s, call)
        && vk.exitTrap == if ok then Some(TrapAddress(s.regions)) else None
  {
    if vk.exitTrap.Some? || !needed {
      return true;
    }
    var trap := TrapAddress(vk.mem.regions);
    ok := vk.mem.Map(vk.uc, trap, 0x1000, PROT_ALL, "[Stop guard page]");
    if !ok || !hooked {
      return false;
    }
    vk.exitTrap := Some(trap);
  }

  lemma ClearIsUnmapped(s: Space, start: int, size: nat)
    requires Same(s) && ClearOf(s.regions, start, size)
    ensures NoneMapped(s.cells, start, size)
  {
    forall a | start <= a < start + size ensures a !in s.cells {
      forall r | r in s.regions ensures !Has(r, a) {
        assert End(r) <= start || start + size <= r.start;
      }
    }
  }

  lemma HighestIsEnd(s: Space, top: Region)
    requires AllSized(s.regions) && top in s.regions && forall r :: r in s.regions ==> SatEnd(r) <= SatEnd(top)
    ensures End(top) <= MAX_U64 ==> forall r :: r in s.regions ==> End(r) <= End(top)
    ensures End(top) > MAX_U64 ==> SatEnd(top) == MAX_U64
    ensures End(top) <= MAX_U64 ==> SatEnd(top) == End(top) <= LAST_PAGE && Aligned(End(top))
  {
    assert Sized(top);
    AlignedSums(top.start, top.size);
    if End(top) <= MAX_U64 {
      PageBelowTop(End(top));
    }
    assert forall r :: r in s.regions ==> Sized(r);
  }

  /** The trap page lies a page above every region, and the engine takes it, exactly when there is
      that much room; without it the address is 0. */
  lemma TrapIsFree(s: Space)
    requires Same(s)
    ensures (forall r :: r in s.regions ==> End(r) + 0x1000 <= TrapAddress(s.regions))
       <==> (forall r :: r in s.regions ==> End(r) + 0x1000 <= LAST_PAGE)
    ensures (forall r :: r in s.regions ==> End(r) + 0x1000 <= LAST_PAGE)
       ==> CanMap(s.cells, TrapAddress(s.regions), 0x1000)
    ensures s.regions == [] ==> TrapAddress(s.regions) == 0x1000
    ensures s.regions != [] && (forall r :: r in s.regions ==> End(r) + 0x1000 <= LAST_PAGE)
       ==> exists r :: r in s.regions && TrapAddress(s.regions) == End(r) + 0x1000
    ensures (exists r :: r in s.regions && End(r) + 0x1000 > LAST_PAGE) ==> TrapAddress(s.regions) == 0
  {
    if s.regions == [] {
      ClearIsUnmapped(s, TrapAddress(s.regions), 0x1000);
      return;
    }
    var top := HighestRegion(s.regions);
    HighestIsEnd(s, top);
    if End(top) + 0x1000 <= LAST_PAGE {
      AlignedSums(End(top), 0x1000);
      AlignUpIsLeast(End(top) + 0x1000, End(top) + 0x1000);
      ClearIsUnmapped(s, TrapAddress(s.regions), 0x1000);
    } else {
      assert TrapAddress(s.regions) == 0;
    }
  }

  /** The interpreter base lies a guard gap above every region exactly when there is that much room,
      and then everything from it on is unmapped. */
  lemma SharedObjectBaseIsFree(s: Space, size: nat)
    requires Same(s)
    ensures (forall r :: r in s.regions ==> End(r) + 0x0100_0000 <= SharedObjectBase(s.regions))
       <==> (forall r :: r in s.regions ==> End(r) + 0x0100_0000 <= LAST_PAGE)
    ensures (forall r :: r in s.regions ==> End(r) + 0x0100_0000 <= LAST_PAGE)
       ==> NoneMapped(s.cells, SharedObjectBase(s.regions), size)
    ensures s.regions == [] ==> SharedObjectBase(s.regions) == 0x0100_0000
    ensures s.regions != [] && (forall r :: r in s.regions ==> End(r) + 0x0100_0000 <= LAST_PAGE)
       ==> exists r :: r in s.regions && SharedObjectBase(s.regions) == End(r) + 0x0100_0000
    ensures (exists r :: r in s.regions && End(r) + 0x0100_0000 > LAST_PAGE) ==> SharedObjectBase(s.regions) == 0
  {
    if s.regions == [] {
      ClearIsUnmapped(s, SharedObjectBase(s.regions), size);
      return;
    }
    var top := HighestRegion(s.regions);
    HighestIsEnd(s, top);
    if End(top) + 0x0100_0000 <= LAST_PAGE {
      AlignedSums(End(top), 0x0100_0000);
      AlignUpIsLeast(End(top) + 0x0100_0000, End(top) + 0x0100_0000);
      ClearIsUnmapped(s, SharedObjectBase(s.regions), size);
    } else {
      assert SharedObjectBase(s.regions) == 0;
    }
  }

  /** A page-aligned address from the start of the search on whose range fits and meets no region. */
  ghost predicate HasRoom(s: Space, size: U64) {
    exists b: U64 :: RoomAt(s, b, size)
  }

  ghost predicate RoomAt(s: Space, b: U64, size: U64) {
    && b % 0x1000 == 0 && b as int + size <= MAX_U64 + 1 && ClearOf(s.regions, b, size)
    && (s.heapExit as int + 0x1000_0000 <= 0xFFFF_FFFF_FFFF_F000 ==> s.heapExit as int + 0x1000_0000 <= b)
  }

  /** On whole pages the overlap test of the search is exact. */
  lemma FreeIsClear(s: Space, c: U64, len: U64)
    requires AllSized(s.regions) && Aligned(c)
    ensures Free(s.regions, c, len) <==> ClearOf(s.regions, c, len)
  {
    PageBelowTop(c);
    forall r | r in s.regions ensures !Meets(r, c, len) <==> End(r) <= c || c + len <= r.start {
      assert Sized(r);
      PageBelowTop(r.start);
    }
  }

  /** With the last page in use, what the search finds lies below the region that has it. */
  lemma FoundFits(s: Space, c: U64, size: U64)
    requires Same(s) && Aligned(c) && ClearOf(s.regions, c, size) && MAX_U64 in s.cells
    ensures c as int + size <= MAX_U64 + 1
  {
    var r :| r in s.regions && Has(r, MAX_U64);
    assert Sized(r);
  }

  lemma TargetHasRoom(s: Space, size: U64)
    requires Same(s) && NextMmapAddr(s.regions, s.heapExit, size).Some?
    ensures var c := NextMmapAddr(s.regions, s.heapExit, size).value;
      Aligned(c) && NoneMapped(s.cells, c, size)
      && (c as int + size <= MAX_U64 + 1 <==> MAX_U64 in s.cells || HasRoom(s, size))
  {
    var c := NextMmapAddr(s.regions, s.heapExit, size).value;
    FreeIsClear(s, c, size);
    ClearIsUnmapped(s, c, size);
    if MAX_U64 in s.cells {
      FoundFits(s, c, size);
    } else {
      AgreeIsSame(s);
      SearchSucceeds(s.regions, s.heapExit, size);
      if b: U64 :| RoomAt(s, b, size) {
        assert c <= b;
      }
      if c as int + size <= MAX_U64 + 1 {
        assert RoomAt(s, c, size);
      }
    }
  }

  /** A request without MAP_FIXED finds an address exactly when there is one that meets no region, which
      there always is with the last page out of use. One that finds an address is refused exactly when
      its length rounds to 0 or, with the last page out of use, there is no room for it above the start
      of the search. */
  lemma MmapRefusal(s: Space, addr: U64, len: U64, prot: U64, flags: U64, fd: U64, file: FileRead)
    requires Same(s) && len != 0 && addr % 0x1000 == 0 && flags / 16 % 2 == 0
    ensures MmapTarget(s, addr, len, flags).Some? <==> SomeFree(s.regions, AlignUp(len))
    ensures MAX_U64 !in s.cells ==> SomeFree(s.regions, AlignUp(len))
    ensures MmapStep(s, addr, len, prot, flags, fd, file).1 == Ret(0x1_0000_0000_0000_0000 - 12) <==>
            && SomeFree(s.regions, AlignUp(len))
            && (len > LAST_PAGE || (MAX_U64 !in s.cells && !HasRoom(s, AlignUp(len))))
  {
    SearchFindsExactly(s.regions, s.heapExit, AlignUp(len));
    FlagBits(flags);
    if MAX_U64 !in s.cells {
      AgreeIsSame(s);
      SearchSucceeds(s.regions, s.heapExit, AlignUp(len));
    }
    MmapAnswers(s, addr, len, prot, flags, fd, file);
    if MmapTarget(s, addr, len, flags).Some? {
      TargetHasRoom(s, AlignUp(len));
      NoPageIsAnError(MmapTarget(s, addr, len, flags).value);
    }
  }

  /** A heap region that reaches 2^64: its wrapped end is 0, so that brk does not see it. */
  predicate TopHeap(r: Region) {
    IsHeap(r) && End(r) > MAX_U64
  }

  /** The growth of the heap is refused by the engine exactly when no region is labelled a heap any
      more and some other region straddles the break, or a heap region that reaches 2^64 starts below the
      new break. */
  lemma BrkFaultsExactly(s: Space, request: U64)
    requires Same(s)
    ensures var end, newBreak := MappedHeapEnd(s.regions, s.heapExit), AlignUp(request);
      BrkStep(s, request).1.Fault? <==>
        && request != 0 && s.heapStart <= newBreak <= HeapLimit(s.regions, end)
        && end < newBreak && AlignUp(end) < newBreak
        && (((forall r :: r in s.regions ==> !IsHeap(r))
             && exists r :: r in s.regions && Straddles(r, s.heapExit))
            || exists r :: r in s.regions && TopHeap(r) && r.start < newBreak)
  {
    var end, newBreak := MappedHeapEnd(s.regions, s.heapExit), AlignUp(request);
    BrkRefused(s, request);
    if end < newBreak && AlignUp(end) < newBreak && newBreak <= HeapLimit(s.regions, end) {
      BrkRoom(s, end, newBreak);
      WhoIsInTheWay(s, end, newBreak);
    }
  }

  lemma BrkRefused(s: Space, request: U64)
    ensures var end, newBreak := MappedHeapEnd(s.regions, s.heapExit), AlignUp(request);
      BrkStep(s, request).1.Fault? <==>
        && request != 0 && s.heapStart <= newBreak <= HeapLimit(s.regions, end)
        && end < newBreak && AlignUp(end) < newBreak && !CanMap(s.cells, AlignUp(end), newBreak - AlignUp(end))
  {
  }

  /** A region below the break that reaches past its page. */
  predicate Straddles(r: Region, end: U64) {
    r.start < end && AlignUp(end) < End(r)
  }

  /** What lies in the range a brk request would map. */
  predicate InTheWay(r: Region, end: U64, newBreak: U64) {
    Straddles(r, end) || (TopHeap(r) && r.start < newBreak)
  }

  lemma WhoIsInTheWay(s: Space, end: U64, newBreak: U64)
    requires Same(s) && end == MappedHeapEnd(s.regions, s.heapExit)
    ensures (exists r :: r in s.regions && InTheWay(r, end, newBreak)) <==>
      || ((forall r :: r in s.regions ==> !IsHeap(r)) && exists r :: r in s.regions && Straddles(r, s.heapExit))
      || exists r :: r in s.regions && TopHeap(r) && r.start < newBreak
  {
    HeapsDoNotStraddle(s, end);
  }

  lemma OutOfTheWay(s: Space, end: U64, newBreak: U64, r: Region)
    requires Same(s) && end == MappedHeapEnd(s.regions, s.heapExit) && newBreak <= HeapLimit(s.regions, end)
    requires r in s.regions && !InTheWay(r, end, newBreak)
    ensures End(r) <= AlignUp(end) || newBreak <= r.start
  {
    MappedHeapEndIsMax(s.regions, s.heapExit);
    HeapLimitIsMin(s.regions, end);
    assert End(r) <= MAX_U64 ==> WrapAdd(r.start, r.size) == End(r);
  }

  /** The range is free of regions exactly when none is in its way. */
  lemma BrkRoom(s: Space, end: U64, newBreak: U64)
    requires Same(s) && end == MappedHeapEnd(s.regions, s.heapExit)
    requires end < newBreak && AlignUp(end) < newBreak <= HeapLimit(s.regions, end) && Aligned(newBreak)
    ensures CanMap(s.cells, AlignUp(end), newBreak - AlignUp(end)) <==>
            !exists r :: r in s.regions && InTheWay(r, end, newBreak)
  {
    var start := AlignUp(end);
    AlignUpIsLeast(end, newBreak);
    PageBelowTop(newBreak);
    if r :| r in s.regions && InTheWay(r, end, newBreak) {
      WayIsMapped(s, end, newBreak, r);
    } else {
      forall r | r in s.regions ensures End(r) <= start || newBreak <= r.start {
        OutOfTheWay(s, end, newBreak, r);
      }
      ClearIsUnmapped(s, start, newBreak - start);
      AlignedSums(newBreak, start);
    }
  }

  lemma WayIsMapped(s: Space, end: U64, newBreak: U64, r: Region)
    requires Same(s) && end == MappedHeapEnd(s.regions, s.heapExit) && end <= AlignUp(end) < newBreak
    requires r in s.regions && InTheWay(r, end, newBreak)
    ensures !NoneMapped(s.cells, AlignUp(end), newBreak - AlignUp(end))
  {
    assert Sized(r);
    var a := if Straddles(r, end) || r.start < AlignUp(end) then AlignUp(end) else r.start;
    assert Has(r, a) && Covered(s.regions, a);
  }

  lemma NoneStraddlesEnd(s: Space, top: Region, r: Region)
    requires Same(s) && top in s.regions && r in s.regions
    ensures !Straddles(r, WrapAdd(top.start, top.size))
  {
    assert Sized(top) && Sized(r);
    RegionsApart(s, top, r);
  }

  /** No region straddles the end of a heap. */
  lemma HeapsDoNotStraddle(s: Space, end: U64)
    requires Same(s) && end == MappedHeapEnd(s.regions, s.heapExit)
    ensures (exists r :: r in s.regions && Straddles(r, end)) ==> forall r :: r in s.regions ==> !IsHeap(r)
    ensures (forall r :: r in s.regions ==> !IsHeap(r)) ==> end == s.heapExit
  {
    MappedHeapEndIsMax(s.regions, s.heapExit);
    if h :| h in s.regions && IsHeap(h) {
      var top :| top in s.regions && IsHeap(top) && end == WrapAdd(top.start, top.size);
      forall r | r in s.regions ensures !Straddles(r, end) {
        NoneStraddlesEnd(s, top, r);
      }
    }
  }
}
