/** What a guest gets from the memory system calls, address by address. */
module Effects {
  import opened Words
  import opened Regions
  import opened Engine
  import opened Emulator
  import opened Syscalls
  import opened AddressSpace
  import opened Heap
  import opened Placement

  /** Nothing is different at an address: mapped or not, protection, byte. */
  ghost predicate SameAt(was: Cells, now: Cells, a: int) {
    (a in now <==> a in was) && (a in was ==> now[a] == was[a])
  }

  /** The byte a new mapping starts with: of the file if the mapping is one of a file (bit 5 of the flags
      clear, a descriptor that is not negative), padded with zeros; else zero. */
  function FirstByte(flags: U64, fd: U64, file: FileRead, k: nat): Byte {
    if flags / 32 % 2 == 0 && fd < 0x8000_0000_0000_0000 && file.Content? && k < |file.bytes| then file.bytes[k]
    else 0
  }

  /** Readable, writable and executable by bits 0, 1 and 2. */
  predicate ProtIs(p: Prot, prot: U64) {
    && (p.read <==> prot % 2 == 1)
    && (p.write <==> prot / 2 % 2 == 1)
    && (p.exec <==> prot / 4 % 2 == 1)
  }

  /** The cell of a new mapping. */
  predicate FreshCell(now: Cells, a: int, start: U64, prot: U64, flags: U64, fd: U64, file: FileRead) {
    start <= a && a in now && ProtIs(now[a].prot, prot) && now[a].byte == FirstByte(flags, fd, file, a - start)
  }

  lemma FileBufferBytes(content: seq<Byte>, size: nat, k: nat)
    requires k < size
    ensures FileBuffer(content, size)[k] == if k < |content| then content[k] else 0
  {
  }

  lemma ClearedOutside(s: Space, start: U64, size: U64, a: int)
    ensures !InRange(a, start, size) ==> SameAt(s.cells, Cleared(s, start, size).cells, a)
  {
  }

  lemma PlacedAt(s: Space, start: U64, size: U64, prot: U64, flags: U64, fd: U64, file: FileRead, a: int)
    requires PlaceStep(s, start, size, prot, flags, fd, file).1 == Ret(start) && Aligned(start)
    ensures CanMap(s.cells, start, size)
    ensures var now := PlaceStep(s, start, size, prot, flags, fd, file).0.cells;
      if InRange(a, start, size) then FreshCell(now, a, start, prot, flags, fd, file) else SameAt(s.cells, now, a)
  {
    ErrorsAreNotPages(ENOMEM);
    ErrorsAreNotPages(EBADF);
    ErrorsAreNotPages(EIO);
    FlagBits(flags);
    MapCellsAt(s.cells, start, size, ProtFromFlags(prot), a);
  }

  /** A mapping that is granted: the whole rounded length from the address, fresh unless MAP_FIXED (bit 4
      of the flags), at the given address with it; every address in it has the protection asked for and
      the byte of the file, or zero; no other address is any different. */
  lemma MmapDelivers(s: Space, addr: U64, len: U64, prot: U64, flags: U64, fd: U64, file: FileRead, v: U64, a: int)
    requires MmapStep(s, addr, len, prot, flags, fd, file).1 == Ret(v) && v % 0x1000 == 0
    ensures len <= AlignUp(len)
    ensures flags / 16 % 2 == 1 && addr != 0 ==> v == addr
    ensures flags / 16 % 2 == 0 && InRange(a, v, AlignUp(len)) ==> a !in s.cells
    ensures var now := MmapStep(s, addr, len, prot, flags, fd, file).0.cells;
      if InRange(a, v, AlignUp(len)) then FreshCell(now, a, v, prot, flags, fd, file) else SameAt(s.cells, now, a)
  {
    var from := if IsFixed(flags) then Cleared(s, v, AlignUp(len)) else s;
    FlagBits(flags);
    MmapGranted(s, addr, len, prot, flags, fd, file, v);
    ClearedOutside(s, v, AlignUp(len), a);
    PlacedAt(from, v, AlignUp(len), prot, flags, fd, file, a);
  }

  /** An answer on a page is the address that was chosen and cleared. */
  lemma MmapGranted(s: Space, addr: U64, len: U64, prot: U64, flags: U64, fd: U64, file: FileRead, v: U64)
    requires MmapStep(s, addr, len, prot, flags, fd, file).1 == Ret(v) && Aligned(v)
    ensures len <= AlignUp(len) && MmapTarget(s, addr, len, flags) == Some(v)
    ensures var from := if IsFixed(flags) then Cleared(s, v, AlignUp(len)) else s;
      MmapStep(s, addr, len, prot, flags, fd, file) == PlaceStep(from, v, AlignUp(len), prot, flags, fd, file)
  {
    ErrorsAreNotPages(EINVAL);
    var start, size := MmapTarget(s, addr, len, flags).value, AlignUp(len);
    MmapAnswer(if IsFixed(flags) then Cleared(s, start, size) else s, start, size, prot, flags, fd, file, v);
  }

  lemma MmapAnswer(s: Space, start: U64, size: U64, prot: U64, flags: U64, fd: U64, file: FileRead, v: U64)
    requires PlaceStep(s, start, size, prot, flags, fd, file).1 == Ret(v) && Aligned(v)
    ensures v == start && 0 < size
  {
    ErrorsAreNotPages(ENOMEM);
    ErrorsAreNotPages(EBADF);
    ErrorsAreNotPages(EIO);
  }

  /** And so it goes on record: the whole range, with the protection asked for. No other record changes,
      up to the last address. */
  lemma MmapRecords(s: Space, addr: U64, len: U64, prot: U64, flags: U64, fd: U64, file: FileRead, v: U64, a: int)
    requires Inv(s) && MmapStep(s, addr, len, prot, flags, fd, file).1 == Ret(v) && v % 0x1000 == 0
    ensures var record := Tag(MmapStep(s, addr, len, prot, flags, fd, file).0.regions, a);
      if InRange(a, v, AlignUp(len)) then record.Some? && ProtIs(record.value.0, prot) && record.value.1 == "[mmap]"
      else a < MAX_U64 ==> record == Tag(s.regions, a)
  {
    MmapGranted(s, addr, len, prot, flags, fd, file, v);
    PlacedRecord(if IsFixed(flags) then Cleared(s, v, AlignUp(len)) else s, v, AlignUp(len), prot, flags, fd, file, a);
    if a < MAX_U64 {
      RemoveRangeTags(s.regions, v, AlignUp(len), a);
    }
    if IsFixed(flags) {
      RemoveRangeKeepsShape(s.regions, v, AlignUp(len));
    }
  }

  lemma PlacedRecord(s: Space, start: U64, size: U64, prot: U64, flags: U64, fd: U64, file: FileRead, a: int)
    requires PlaceStep(s, start, size, prot, flags, fd, file).1 == Ret(start) && Aligned(start)
    ensures CanMap(s.cells, start, size)
    ensures Tag(PlaceStep(s, start, size, prot, flags, fd, file).0.regions, a) ==
      if Covered(s.regions, a) then Tag(s.regions, a)
      else if InRange(a, start, size) then Some((ProtFromFlags(prot), "[mmap]")) else None
  {
    PlaceAnswers(s, start, size, prot, flags, fd, file);
    ErrorsAreNotPages(ENOMEM);
    TagOfConcat(s.regions, [Region(start, size, ProtFromFlags(prot), "[mmap]")], a);
  }

  /** A file mapping that fails on its file has been made all the same, filled with zeros: -9 is the answer
      for a descriptor that is not open, -5 for one that cannot be read. */
  lemma FailedFileStaysMapped(s: Space, addr: U64, len: U64, prot: U64, flags: U64, fd: U64, file: FileRead, a: int)
    requires var r := MmapStep(s, addr, len, prot, flags, fd, file).1;
      r == Ret(0x1_0000_0000_0000_0000 - 9) || r == Ret(0x1_0000_0000_0000_0000 - 5)
    ensures MmapTarget(s, addr, len, flags).Some?
    ensures file == if MmapStep(s, addr, len, prot, flags, fd, file).1 == Ret(0x1_0000_0000_0000_0000 - 9)
                    then NoSuchFd else ReadError
    ensures var now, v := MmapStep(s, addr, len, prot, flags, fd, file).0.cells, MmapTarget(s, addr, len, flags).value;
      if InRange(a, v, AlignUp(len)) then a in now && ProtIs(now[a].prot, prot) && now[a].byte == 0
      else SameAt(s.cells, now, a)
  {
    var start, size := MmapTarget(s, addr, len, flags).value, AlignUp(len);
    var from := if IsFixed(flags) then Cleared(s, start, size) else s;
    NoPageIsAnError(start);
    MmapAnswers(s, addr, len, prot, flags, fd, file);
    FailedFilePlaced(from, start, size, prot, flags, fd, file);
    ClearedOutside(s, start, size, a);
    MapCellsAt(from.cells, start, size, ProtFromFlags(prot), a);
  }

  lemma FailedFilePlaced(s: Space, start: U64, size: U64, prot: U64, flags: U64, fd: U64, file: FileRead)
    requires !file.Content? && CanMap(s.cells, start, size)
    ensures PlaceStep(s, start, size, prot, flags, fd, file).0 == Placed(s, start, size, ProtFromFlags(prot))
  {
  }

  lemma CoveredIsMapped(s: Space, start: int, size: nat)
    requires Same(s)
    ensures AllMapped(s.cells, start, size) <==> forall a :: start <= a < start + size ==> Covered(s.regions, a)
  {
  }

  /** munmap answers 0 exactly for an aligned non-null address, a non-zero length, and a rounded range
      that is on record throughout; then the range is gone and nothing else is different, except that
      the last address of all loses its record exactly when the range ends inside a region that has it.
      Otherwise it answers EINVAL and nothing is. (A length within a page of 2^64 rounds to 0, and is a
      success that does nothing.) */
  lemma MunmapDelivers(s: Space, addr: U64, len: U64, a: int)
    requires Same(s)
    ensures var (t, r) := MunmapStep(s, addr, len);
      && (r == Ret(0) <==> addr != 0 && len != 0 && Aligned(addr)
                           && forall b :: addr <= b < addr + AlignUp(len) ==> Covered(s.regions, b))
      && (r != Ret(0) ==> r == Ret(0x1_0000_0000_0000_0000 - 22) && t == s)
      && (r == Ret(0) && InRange(a, addr, AlignUp(len)) ==> a !in t.cells && !Covered(t.regions, a))
      && (r == Ret(0) && !InRange(a, addr, AlignUp(len)) ==>
            && SameAt(s.cells, t.cells, a)
            && (Tag(t.regions, a) == Tag(s.regions, a) <==> !(a == MAX_U64 && Shaves(s.regions, addr, AlignUp(len)))))
  {
    var size := AlignUp(len);
    SameIsInv(s);
    CoveredIsMapped(s, addr, size);
    assert NegErrno(EINVAL) != 0;
    if size != 0 && AllMapped(s.cells, addr, size) {
      assert addr + size - 1 in s.cells;
    }
    if Aligned(addr) {
      RemoveRangeKeepsShape(s.regions, addr, size);
      if !InRange(a, addr, size) {
        UnmappedTag(s, addr, size, a);
      }
    }
  }

  lemma UnmappedTag(s: Space, addr: U64, size: U64, a: int)
    requires Same(s) && Aligned(addr) && Aligned(size) && !InRange(a, addr, size)
    ensures Tag(RemoveRange(s.regions, addr, size), a) == Tag(s.regions, a) <==>
            !(a == MAX_U64 && Shaves(s.regions, addr, size))
  {
    if a < MAX_U64 {
      RemoveRangeTags(s.regions, addr, size, a);
    } else if Shaves(s.regions, addr, size) {
      SameIsInv(s);
      RemoveRangeKeepsShape(s.regions, addr, size);
      ShavingLosesTop(s.regions, addr, size);
    } else {
      RemoveRangeSized(s.regions, addr, size);
      if Covered(s.regions, a) {
        SurvivorKeepsTag(s, addr, size, a);
      }
    }
  }

  /** mprotect answers 0 exactly for a non-zero length over pages that are on record throughout; then
      exactly these pages have the new protection, and no byte is different. */
  lemma MprotectDelivers(s: Space, addr: U64, len: U64, prot: U64, a: int)
    requires Same(s)
    ensures var (t, r) := MprotectStep(s, addr, len, prot);
      var start, end := AlignDown(addr), AlignUp(SatAdd(addr, len));
      && (r == Ret(0) <==> len != 0 && forall b :: start <= b < end ==> Covered(s.regions, b))
      && (r != Ret(0) ==> t == s && r == if len == 0 then Ret(0x1_0000_0000_0000_0000 - 22) else Fault)
      && (a in t.cells <==> a in s.cells)
      && (a in s.cells ==> t.cells[a].byte == s.cells[a].byte)
      && (r == Ret(0) && a in s.cells ==>
            if start <= a < end then ProtIs(t.cells[a].prot, prot) else t.cells[a].prot == s.cells[a].prot)
  {
    var start, end := AlignDown(addr), AlignUp(SatAdd(addr, len));
    var size := SatSub(end, start);
    SameIsInv(s);
    CoveredIsMapped(s, start, size);
    AlignedSums(end, start);
    assert NegErrno(EINVAL) != 0;
    if size != 0 && AllMapped(s.cells, start, size) {
      assert start + size - 1 in s.cells;
    }
  }

  /** With the heap in order, brk answers with the break as it then is: the request rounded up if that
      is between heap start and the next region, the old break otherwise. The heap grows by zeroed
      pages, shrinking unmaps nothing, and no other address is different. */
  lemma BrkDelivers(s: Space, end: U64, request: U64, a: int)
    requires Same(s) && HeapTo(s, end)
    ensures var (t, r) := BrkStep(s, request);
      && r == Ret(t.heapExit)
      && t.heapExit == (if request != 0 && s.heapStart <= AlignUp(request) <= HeapLimit(s.regions, end)
                        then AlignUp(request) else s.heapExit)
      && (if end <= a < t.heapExit then
            a !in s.cells && a in t.cells && t.cells[a] == Cell(Prot(true, true, true), 0)
          else SameAt(s.cells, t.cells, a))
  {
    SameIsInv(s);
    EndOfHeap(s, end, s.heapExit);
    assert AlignUp(end) == end;
    var newBreak := AlignUp(request);
    if request != 0 && s.heapStart <= newBreak <= HeapLimit(s.regions, end) && end < newBreak {
      BrkRoom(s, end, newBreak);
      HeapsDoNotStraddle(s, end);
      NoTopHeap(s, end);
      MapCellsAt(s.cells, end, newBreak - end, PROT_ALL, a);
    }
  }

  /** The growth goes on record as heap; no other record changes. */
  lemma BrkRecords(s: Space, end: U64, request: U64, a: int)
    requires Same(s) && HeapTo(s, end)
    ensures Tag(BrkStep(s, request).0.regions, a) ==
      if end <= a < BrkStep(s, request).0.heapExit then Some((Prot(true, true, true), "[heap]"))
      else Tag(s.regions, a)
  {
    SameIsInv(s);
    EndOfHeap(s, end, s.heapExit);
    BrkCases(s, end, request);
    var t := BrkStep(s, request).0;
    if t.regions != s.regions {
      HeapRecorded(s, end, t.heapExit, a);
    }
  }

  lemma HeapRecorded(s: Space, end: U64, newBreak: U64, a: int)
    requires Same(s) && end < newBreak && CanMap(s.cells, end, newBreak - end)
    ensures Tag(s.regions + [Region(end, newBreak - end, PROT_ALL, HEAP)], a)
         == if end <= a < newBreak then Some((Prot(true, true, true), "[heap]")) else Tag(s.regions, a)
  {
    TagOfConcat(s.regions, [Region(end, newBreak - end, PROT_ALL, HEAP)], a);
    assert Covered(s.regions, a) <==> Tag(s.regions, a).Some?;
  }

  lemma NoTopHeap(s: Space, end: U64)
    requires HeapTo(s, end)
    ensures forall r :: r in s.regions ==> !TopHeap(r)
  {
    forall r | r in s.regions && IsHeap(r) ensures !TopHeap(r) {
      assert Has(r, MAX_U64) ==> InHeap(s.regions, MAX_U64);
    }
  }
}
