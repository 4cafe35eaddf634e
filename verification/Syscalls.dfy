/** The memory system calls of src/os/syscall/memory.rs: what each does to the address space as a
    function, and the code itself as a method that does exactly that. */
module Syscalls {
  import opened Words
  import opened Regions
  import opened Engine
  import opened Memory
  import opened Mmap
  import opened Emulator

  /** How a call ends: it hands the guest a word, it fails inside the emulator (the error is logged
      and the guest goes on), or it never returns. */
  datatype Outcome = Ret(value: U64) | Fault | Hang

  /** What the host file behind a descriptor yields to mmap. */
  datatype FileRead = NoSuchFd | ReadError | Content(bytes: seq<Byte>)

  function Fail(errno: int): Outcome
    requires 0 < errno < 0x1000
  {
    Ret(NegErrno(errno))
  }

  function ProtFromFlags(flags: U64): Prot {
    Prot(flags % 2 == 1, flags / 2 % 2 == 1, flags / 4 % 2 == 1)
  }

  predicate IsFixed(flags: U64) { flags / 0x10 % 2 == 1 }

  predicate IsAnonymous(flags: U64) { flags / 0x20 % 2 == 1 }

  const HEAP := "[heap]"

  predicate IsHeap(r: Region) { r.info == HEAP }

  // ---- brk

  /** The greatest end of a heap region, `default` without one. */
  function MappedHeapEnd(rs: seq<Region>, default: U64): U64 {
    if rs == [] then default
    else if !IsHeap(rs[0]) then MappedHeapEnd(rs[1..], default)
    else
      var end := WrapAdd(rs[0].start, rs[0].size);
      var rest := MappedHeapEnd(rs[1..], end);
      if rest > end then rest else end
  }

  lemma {:induction false} MappedHeapEndIsMax(rs: seq<Region>, default: U64)
    ensures (forall r :: r in rs ==> !IsHeap(r)) ==> MappedHeapEnd(rs, default) == default
    ensures (exists r :: r in rs && IsHeap(r)) ==>
      exists r :: r in rs && IsHeap(r) && MappedHeapEnd(rs, default) == WrapAdd(r.start, r.size)
    ensures forall r :: r in rs && IsHeap(r) ==> WrapAdd(r.start, r.size) <= MappedHeapEnd(rs, default)
  {
    if rs != [] {
      var end := if IsHeap(rs[0]) then WrapAdd(rs[0].start, rs[0].size) else default;
      MappedHeapEndIsMax(rs[1..], end);
      assert forall r :: r in rs <==> r == rs[0] || r in rs[1..];
    }
  }

  /** The least start of another region at or above `end`, the largest word without one. */
  function HeapLimit(rs: seq<Region>, end: U64): U64 {
    if rs == [] then MAX_U64
    else
      var rest := HeapLimit(rs[1..], end);
      if !IsHeap(rs[0]) && end <= rs[0].start && rs[0].start < rest then rs[0].start else rest
  }

  lemma {:induction false} HeapLimitIsMin(rs: seq<Region>, end: U64)
    ensures forall r :: r in rs && !IsHeap(r) && end <= r.start ==> HeapLimit(rs, end) <= r.start
    ensures HeapLimit(rs, end) == MAX_U64
      || exists r :: r in rs && !IsHeap(r) && end <= r.start && HeapLimit(rs, end) == r.start
  {
    if rs != [] {
      HeapLimitIsMin(rs[1..], end);
      assert forall r :: r in rs <==> r == rs[0] || r in rs[1..];
    }
  }

  function BrkStep(s: Space, request: U64): (Space, Outcome) {
    var end := MappedHeapEnd(s.regions, s.heapExit);
    var newBreak := AlignUp(request);
    if request == 0 || newBreak < s.heapStart || newBreak > HeapLimit(s.regions, end) then
      (s, Ret(s.heapExit))
    else
      var start := AlignUp(end);
      var size := SatSub(newBreak, start);
      if newBreak <= end || size == 0 then
        (s.(heapExit := newBreak), Ret(newBreak))
      else if CanMap(s.cells, start, size) then
        (s.(regions := s.regions + [Region(start, size, PROT_ALL, HEAP)],
            cells := MapCells(s.cells, start, size, PROT_ALL),
            heapExit := newBreak), Ret(newBreak))
      else
        (s, Fault)
  }

  method SysBrk(vk: Valkyrie, request: U64) returns (r: Outcome)
    modifies vk.mem, vk.uc
    ensures (vk.AddressSpace(), r) == BrkStep(old(vk.AddressSpace()), request)
  {
    var current := vk.mem.heapExit;
    if request == 0 {
      return Ret(current);
    }
    var mappedHeapEnd := MappedHeapEnd(vk.mem.regions, vk.mem.heapExit);
    var heapLimit := HeapLimit(vk.mem.regions, mappedHeapEnd);
    var newBreak := AlignUp(request);
    if newBreak < vk.mem.heapStart || newBreak > heapLimit {
      return Ret(current);
    }
    if newBreak > mappedHeapEnd {
      var mapStart := AlignUp(mappedHeapEnd);
      var mapSize := SatSub(newBreak, mapStart);
      if mapSize > 0 {
        var ok := vk.mem.Map(vk.uc, mapStart, mapSize, PROT_ALL, HEAP);
        if !ok {
          return Fault;
        }
      }
    }
    vk.mem.heapExit := newBreak;
    return Ret(newBreak);
  }

  // ---- mmap

  /** The buffer mmap writes for a file: what was read, then zeros up to the mapping's length. */
  function FileBuffer(content: seq<Byte>, size: nat): (buffer: seq<Byte>)
    ensures |buffer| == size
  {
    if |content| >= size then content[..size]
    else content + seq(size - |content|, _ => 0)
  }

  /** Where the request is to go; None when the search does not end. */
  ghost function MmapTarget(s: Space, addr: U64, len: U64, flags: U64): Option<U64> {
    if addr == 0 || !IsFixed(flags) then NextMmapAddr(s.regions, s.heapExit, AlignUp(len))
    else Some(addr)
  }

  /** MAP_FIXED clears its range first. The engine may refuse; the list is edited all the same. */
  ghost function Cleared(s: Space, start: U64, size: U64): Space {
    s.(regions := RemoveRange(s.regions, start, size),
       cells := if CanEdit(s.cells, start, size) then UnmapCells(s.cells, start, size) else s.cells)
  }

  ghost function Placed(s: Space, start: U64, size: U64, prot: Prot): Space {
    s.(regions := s.regions + [Region(start, size, prot, "[mmap]")],
       cells := MapCells(s.cells, start, size, prot))
  }

  ghost function FileStep(s: Space, start: U64, size: U64, file: FileRead): (Space, Outcome) {
    match file
    case NoSuchFd => (s, Fail(EBADF))
    case ReadError => (s, Fail(EIO))
    case Content(bytes) =>
      if size != 0 && AllMapped(s.cells, start, size) then
        (s.(cells := WriteCells(s.cells, start, FileBuffer(bytes, size))), Ret(start))
      else (s, Fault)
  }

  /** The rest of mmap once its address is chosen and cleared. */
  ghost function PlaceStep(s: Space, start: U64, size: U64, prot: U64, flags: U64, fd: U64, file: FileRead)
    : (Space, Outcome)
  {
    if !CanMap(s.cells, start, size) then (s, Fail(ENOMEM))
    else
      var placed := Placed(s, start, size, ProtFromFlags(prot));
      if !IsAnonymous(flags) && fd < 0x8000_0000_0000_0000 then FileStep(placed, start, size, file)
      else (placed, Ret(start))
  }

  ghost function MmapStep(s: Space, addr: U64, len: U64, prot: U64, flags: U64, fd: U64, file: FileRead)
    : (Space, Outcome)
  {
    if len == 0 || !Aligned(addr) then (s, Fail(EINVAL))
    else match MmapTarget(s, addr, len, flags)
      case None => (s, Hang)
      case Some(start) =>
        var size := AlignUp(len);
        PlaceStep(if IsFixed(flags) then Cleared(s, start, size) else s, start, size, prot, flags, fd, file)
  }

  method MapFileBytes(vk: Valkyrie, addr: U64, size: U64, file: FileRead) returns (r: Outcome)
    modifies vk.uc
    ensures size == 0 ==> r == Ret(0) && vk.AddressSpace() == old(vk.AddressSpace())
    ensures size != 0 ==> vk.AddressSpace() == FileStep(old(vk.AddressSpace()), addr, size, file).0
    ensures size != 0 ==> r == match FileStep(old(vk.AddressSpace()), addr, size, file).1
                               case Ret(v) => if file.Content? then Ret(0) else Ret(v)
                               case other => other
  {
    if size == 0 {
      return Ret(0);
    }
    match file
    case NoSuchFd => return Fail(EBADF);
    case ReadError => return Fail(EIO);
    case Content(bytes) =>
      var ok := vk.mem.Write(vk.uc, addr, FileBuffer(bytes, size));
      return if ok then Ret(0) else Fault;
  }

  /** The request looks for its address itself. */
  predicate Searches(addr: U64, len: U64, flags: U64) {
    len != 0 && Aligned(addr) && (addr == 0 || !IsFixed(flags))
  }

  lemma PlaceReturns(s: Space, start: U64, size: U64, prot: U64, flags: U64, fd: U64, file: FileRead)
    ensures !PlaceStep(s, start, size, prot, flags, fd, file).1.Hang?
  {
  }

  /** Without a page to find the search does not end, and neither does the call. */
  lemma MmapHangsExactly(s: Space, addr: U64, len: U64, prot: U64, flags: U64, fd: U64, file: FileRead)
    ensures MmapStep(s, addr, len, prot, flags, fd, file).1.Hang? <==>
            Searches(addr, len, flags) && !SomeFree(s.regions, AlignUp(len))
  {
    SearchFindsExactly(s.regions, s.heapExit, AlignUp(len));
    if len != 0 && Aligned(addr) && MmapTarget(s, addr, len, flags).Some? {
      var start, size := MmapTarget(s, addr, len, flags).value, AlignUp(len);
      PlaceReturns(if IsFixed(flags) then Cleared(s, start, size) else s, start, size, prot, flags, fd, file);
    }
  }

  method SysMmap(vk: Valkyrie, addr: U64, len: U64, prot: U64, flags: U64, fd: U64, file: FileRead)
    returns (r: Outcome)
    requires Searches(addr, len, flags) ==> SomeFree(vk.mem.regions, AlignUp(len))
    modifies vk.mem, vk.uc
    ensures (vk.AddressSpace(), r) == MmapStep(old(vk.AddressSpace()), addr, len, prot, flags, fd, file)
  {
    if len == 0 {
      return Fail(EINVAL);
    }
    var mapLen := AlignUp(len);
    if !Aligned(addr) {
      return Fail(EINVAL);
    }
    var useFixed := IsFixed(flags);
    var mapAddr := addr;
    if addr == 0 || !useFixed {
      ghost var turns;
      mapAddr, turns := Search(vk.mem.regions, vk.mem.heapExit, mapLen);
    }
    if useFixed {
      var _ := vk.uc.MemUnmap(mapAddr, mapLen);
      vk.mem.RemoveRange(mapAddr, mapLen);
    }
    var ok := vk.mem.Map(vk.uc, mapAddr, mapLen, ProtFromFlags(prot), "[mmap]");
    if !ok {
      return Fail(ENOMEM);
    }
    var isAnon := IsAnonymous(flags);
    if !isAnon && fd < 0x8000_0000_0000_0000 {
      var result := MapFileBytes(vk, mapAddr, mapLen, file);
      if result != Ret(0) {
        return result;
      }
    }
    return Ret(mapAddr);
  }

  /** An address is told from an error by its alignment. */
  lemma ErrorsAreNotPages(errno: int)
    requires 0 < errno < 0x1000
    ensures !Aligned(NegErrno(errno))
  {
  }

  /** The flags of a request, by their bits. */
  lemma FlagBits(flags: U64)
    ensures IsFixed(flags) <==> flags / 16 % 2 == 1
    ensures IsAnonymous(flags) <==> flags / 32 % 2 == 1
  {
  }

  /** The engine takes the mapping: the range fits and was not mapped or, with MAP_FIXED, was mapped
      throughout. */
  predicate Grants(cells: Cells, start: U64, size: U64, flags: U64) {
    && 0 < size && start % 0x1000 == 0 && size % 0x1000 == 0 && start as int + size <= 0x1_0000_0000_0000_0000
    && (NoneMapped(cells, start, size) || (flags / 16 % 2 == 1 && AllMapped(cells, start, size)))
  }

  lemma GrantsExactly(s: Space, start: U64, size: U64, flags: U64)
    requires Aligned(start) && Aligned(size)
    ensures CanMap((if IsFixed(flags) then Cleared(s, start, size) else s).cells, start, size)
       <==> Grants(s.cells, start, size, flags)
  {
    FlagBits(flags);
    if IsFixed(flags) && 0 < size && start as int + size <= MAX_U64 + 1 && AllMapped(s.cells, start, size) {
      assert NoneMapped(Cleared(s, start, size).cells, start, size);
    } else if IsFixed(flags) {
      assert Cleared(s, start, size).cells == s.cells || size == 0;
    }
  }

  /** The answer to every request, errors as -22, -12, -9 and -5: EINVAL for a bad argument, none at all
      when no address is found, ENOMEM when the engine does not take the mapping, EBADF or EIO when it is
      one of a file that is not open or cannot be read, and the address otherwise. */
  lemma MmapAnswers(s: Space, addr: U64, len: U64, prot: U64, flags: U64, fd: U64, file: FileRead)
    ensures var r, target := MmapStep(s, addr, len, prot, flags, fd, file).1, MmapTarget(s, addr, len, flags);
      r == if len == 0 || addr % 0x1000 != 0 then Ret(0x1_0000_0000_0000_0000 - 22)
           else if target == None then Hang
           else if !Grants(s.cells, target.value, AlignUp(len), flags) then Ret(0x1_0000_0000_0000_0000 - 12)
           else if flags / 32 % 2 == 1 || fd >= 0x8000_0000_0000_0000 || file.Content? then Ret(target.value)
           else if file.NoSuchFd? then Ret(0x1_0000_0000_0000_0000 - 9)
           else Ret(0x1_0000_0000_0000_0000 - 5)
  {
    if len != 0 && Aligned(addr) && MmapTarget(s, addr, len, flags).Some? {
      var start, size := MmapTarget(s, addr, len, flags).value, AlignUp(len);
      GrantsExactly(s, start, size, flags);
      PlaceAnswers(if IsFixed(flags) then Cleared(s, start, size) else s, start, size, prot, flags, fd, file);
    }
  }

  lemma PlaceAnswers(s: Space, start: U64, size: U64, prot: U64, flags: U64, fd: U64, file: FileRead)
    ensures PlaceStep(s, start, size, prot, flags, fd, file).1 ==
      if !CanMap(s.cells, start, size) then Ret(0x1_0000_0000_0000_0000 - 12)
      else if flags / 32 % 2 == 1 || fd >= 0x8000_0000_0000_0000 || file.Content? then Ret(start)
      else if file.NoSuchFd? then Ret(0x1_0000_0000_0000_0000 - 9)
      else Ret(0x1_0000_0000_0000_0000 - 5)
  {
    FlagBits(flags);
    if CanMap(s.cells, start, size) {
      assert AllMapped(Placed(s, start, size, ProtFromFlags(prot)).cells, start, size);
    }
  }

  lemma NoPageIsAnError(start: U64)
    requires Aligned(start)
    ensures start != 0x1_0000_0000_0000_0000 - 12 && start != 0x1_0000_0000_0000_0000 - 9
    ensures start != 0x1_0000_0000_0000_0000 - 5
  {
  }

  // ---- mprotect, munmap

  /** The protection update of the list: every region that meets [start, end) changes as a whole. */
  function Reprotected(rs: seq<Region>, start: U64, end: U64, prot: Prot): (out: seq<Region>)
    ensures |out| == |rs|
    ensures forall i :: 0 <= i < |rs| ==> out[i] == ReprotectedOne(rs[i], start, end, prot)
  {
    if rs == [] then [] else [ReprotectedOne(rs[0], start, end, prot)] + Reprotected(rs[1..], start, end, prot)
  }

  function ReprotectedOne(r: Region, start: U64, end: U64, prot: Prot): Region {
    if start < WrapAdd(r.start, r.size) && end > r.start then r.(prot := prot) else r
  }

  /** The list update of mprotect, in place. */
  method ReprotectRegions(mem: VMemory, start: U64, end: U64, prot: Prot)
    modifies mem`regions
    ensures mem.regions == Reprotected(old(mem.regions), start, end, prot)
  {
    ghost var goal := Reprotected(mem.regions, start, end, prot);
    for i := 0 to |mem.regions|
      invariant |mem.regions| == |old(mem.regions)| == |goal|
      invariant forall k :: 0 <= k < i ==> mem.regions[k] == goal[k]
      invariant forall k :: i <= k < |goal| ==> mem.regions[k] == old(mem.regions)[k]
    {
      var region := mem.regions[i];
      if start < WrapAdd(region.start, region.size) && end > region.start {
        mem.regions := mem.regions[i := region.(prot := prot)];
      }
    }
  }

  function MprotectStep(s: Space, addr: U64, len: U64, prot: U64): (Space, Outcome) {
    if len == 0 then (s, Fail(EINVAL))
    else
      var start := AlignDown(addr);
      var end := AlignUp(SatAdd(addr, len));
      var size := SatSub(end, start);
      var p := ProtFromFlags(prot);
      if !CanEdit(s.cells, start, size) then (s, Fault)
      else
        (s.(cells := ProtectCells(s.cells, start, size, p),
            regions := Reprotected(s.regions, start, end, p)), Ret(0))
  }

  method SysMprotect(vk: Valkyrie, addr: U64, len: U64, prot: U64) returns (r: Outcome)
    modifies vk.mem, vk.uc
    ensures (vk.AddressSpace(), r) == MprotectStep(old(vk.AddressSpace()), addr, len, prot)
  {
    if len == 0 {
      return Fail(EINVAL);
    }
    var start := AlignDown(addr);
    var end := AlignUp(SatAdd(addr, len));
    var size := SatSub(end, start);
    var ucProt := ProtFromFlags(prot);
    var ok := vk.uc.MemProtect(start, size, ucProt);
    if !ok {
      return Fault;
    }
    ReprotectRegions(vk.mem, start, end, ucProt);
    return Ret(0);
  }

  function MunmapStep(s: Space, addr: U64, len: U64): (Space, Outcome) {
    var size := AlignUp(len);
    if addr == 0 || len == 0 || !Aligned(addr) || !CanEdit(s.cells, addr, size) then (s, Fail(EINVAL))
    else
      (s.(cells := UnmapCells(s.cells, addr, size), regions := RemoveRange(s.regions, addr, size)), Ret(0))
  }

  method SysMunmap(vk: Valkyrie, addr: U64, len: U64) returns (r: Outcome)
    modifies vk.mem, vk.uc
    ensures (vk.AddressSpace(), r) == MunmapStep(old(vk.AddressSpace()), addr, len)
  {
    if addr == 0 {
      return Fail(EINVAL);
    }
    if len == 0 {
      return Fail(EINVAL);
    }
    if !Aligned(addr) {
      return Fail(EINVAL);
    }
    var unmapLen := AlignUp(len);
    var ok := vk.uc.MemUnmap(addr, unmapLen);
    if !ok {
      return Fail(EINVAL);
    }
    vk.mem.RemoveRange(addr, unmapLen);
    return Ret(0);
  }
}
