/** Loading the LOAD segments of an ELF file: `map_elf_binary` of src/loader/elf.rs and `zero_fill`
    of src/common.rs. */
module Elf {
  import opened Words
  import opened Regions
  import opened Engine
  import opened Emulator
  import opened AddressSpace
  import opened Sections

  /** A program header: `flags` are its permission bits, "Segment Permissions" in chapter 5 of the System V
      gABI, and `content` is its part of the file. */
  datatype Segment = Segment(isLoad: bool, vaddr: U64, vsize: U64, flags: U32, content: seq<Byte>)

  /** `prot_from_flags` of the loader. */
  function SegProt(seg: Segment): Prot {
    Prot(seg.flags / 4 % 2 == 1, seg.flags / 2 % 2 == 1, seg.flags % 2 == 1)
  }

  predicate Loads(seg: Segment) {
    seg.isLoad && seg.vsize != 0
  }

  /** The file part is no longer than the memory part, as "Program Header" in chapter 5 of the
      System V gABI demands. */
  predicate Fits(seg: Segment) {
    |seg.content| <= seg.vsize
  }

  function Base(bias: U64, seg: Segment): U64 {
    SatAdd(bias, seg.vaddr)
  }

  /** The end of the segment is not past the start of the last page. */
  predicate InReach(bias: U64, seg: Segment) {
    SatAdd(Base(bias, seg), seg.vsize) <= LAST_PAGE
  }

  /** Where the pages of the segment start and end. */
  function PageStart(bias: U64, seg: Segment): U64 {
    AlignDown(Base(bias, seg))
  }

  function PageEnd(bias: U64, seg: Segment): U64 {
    AlignUp(SatAdd(Base(bias, seg), seg.vsize))
  }

  /** The same as page numbers: first page of the segment, and first page after it. */
  function FirstPage(bias: U64, seg: Segment): Page {
    PageStart(bias, seg) / 0x1000
  }

  function EndPage(bias: U64, seg: Segment): Page {
    PageEnd(bias, seg) / 0x1000
  }

  lemma PageBounds(bias: U64, seg: Segment)
    ensures Address(FirstPage(bias, seg)) == PageStart(bias, seg)
    ensures Address(EndPage(bias, seg)) == PageEnd(bias, seg)
    ensures InReach(bias, seg) && seg.vsize != 0 ==> FirstPage(bias, seg) < EndPage(bias, seg)
    ensures !InReach(bias, seg) ==> EndPage(bias, seg) == 0
  {
  }

  lemma SegmentInPages(bias: U64, seg: Segment)
    ensures PageStart(bias, seg) <= Base(bias, seg)
    ensures InReach(bias, seg) ==> Base(bias, seg) + seg.vsize <= PageEnd(bias, seg)
  {
  }

  // ---- zero_fill

  function Zeros(n: nat): seq<Byte> {
    seq(n, _ => 0)
  }

  lemma ZerosWritten(cells: Cells, addr: int, n: nat, m: nat)
    ensures WriteCells(WriteCells(cells, addr, Zeros(n)), addr + n, Zeros(m)) == WriteCells(cells, addr, Zeros(n + m))
  {
  }

  /** The last page is out of use. */
  ghost predicate Low(cells: Cells) {
    forall a :: a in cells ==> 0 <= a < LAST_PAGE
  }

  ghost predicate Below(cells: Cells) {
    forall a :: a in cells ==> 0 <= a < MAX_U64
  }

  /** Inside the address space. */
  ghost predicate Bounded(cells: Cells) {
    forall a :: a in cells ==> 0 <= a <= MAX_U64
  }

  /** Whole pages up to 2^64 and one byte more. The saturated address of that byte is the last one of
      all, which is zeroed once more. */
  ghost predicate OneTooMany(cells: Cells, addr: U64, size: U64) {
    0 < size && Aligned(addr) && addr as int + size == MAX_U64 + 2 && AllMapped(cells, addr, size - 1)
  }

  /** Mid-way through the zeroing. */
  ghost predicate Zeroing(was: Cells, now: Cells, addr0: U64, size0: U64, done: nat, addr: U64, size: U64) {
    && done + size == size0
    && if addr0 + done <= MAX_U64 + 1 then
         && AllMapped(was, addr0, done) && now == WriteCells(was, addr0, Zeros(done))
         && (size > 0 ==> Aligned(done) && addr == if addr0 + done > MAX_U64 then MAX_U64 else addr0 + done)
       else size == 0 && OneTooMany(was, addr0, size0) && now == WriteCells(was, addr0, Zeros(size0 - 1))
  }

  lemma ZeroInside(was: Cells, now: Cells, addr0: U64, size0: U64, done: nat, addr: U64, size: U64, w: U64)
    requires Bounded(was) && Zeroing(was, now, addr0, size0, done, addr, size) && addr0 + done <= MAX_U64
    requires size > 0 && w == if size < 0x1000 then size else 0x1000
    ensures AllMapped(now, addr, w) ==>
      Zeroing(was, WriteCells(now, addr, Zeros(w)), addr0, size0, done + w, SatAdd(addr, w), SatSub(size, w))
    ensures !AllMapped(now, addr, w) ==> !AllMapped(was, addr0, size0) && !OneTooMany(was, addr0, size0)
  {
    assert forall a :: a in now <==> a in was;
    assert AllMapped(now, addr, w) <==> AllMapped(was, addr, w);
    if AllMapped(was, addr, w) {
      assert addr + w as int - 1 in was;
      MappedSplit(was, addr0, addr0 + done, addr0 + done + w);
      ZerosWritten(was, addr0, done, w);
      AlignedSums(done, 0x1000);
    } else {
      MappedSplit(was, addr0, addr0 + done, addr0 + size0);
      MappedSplit(was, addr0 + done, addr0 + done + w, addr0 + size0);
      if OneTooMany(was, addr0, size0) {
        AlignedSums(addr0, done);
        PageBelowTop(addr);
        MappedSplit(was, addr0, addr0 + done, addr0 + size0 - 1);
        MappedSplit(was, addr0 + done, addr0 + done + w, addr0 + size0 - 1);
        assert false;
      }
    }
  }

  lemma ZeroPastEnd(was: Cells, now: Cells, addr0: U64, size0: U64, done: nat, addr: U64, size: U64, w: U64)
    requires Bounded(was) && Zeroing(was, now, addr0, size0, done, addr, size) && addr0 + done == MAX_U64 + 1
    requires size > 0 && w == if size < 0x1000 then size else 0x1000
    ensures AllMapped(now, addr, w) ==>
      Zeroing(was, WriteCells(now, addr, Zeros(w)), addr0, size0, done + w, SatAdd(addr, w), SatSub(size, w))
    ensures !AllMapped(now, addr, w) ==> !AllMapped(was, addr0, size0) && !OneTooMany(was, addr0, size0)
  {
    assert forall a :: a in now <==> a in was;
    AlignedSums(MAX_U64 + 1, done);
    assert MAX_U64 in was && MAX_U64 + 1 !in was;
    assert !AllMapped(was, addr0, size0);
    if w == 1 {
      assert AllMapped(now, addr, w) && OneTooMany(was, addr0, size0);
      ZeroedAgain(was, addr0, done);
    } else {
      assert MAX_U64 + 1 !in now;
    }
  }

  lemma ZeroedAgain(was: Cells, addr0: U64, done: nat)
    requires addr0 + done == MAX_U64 + 1
    ensures var now := WriteCells(was, addr0, Zeros(done)); WriteCells(now, MAX_U64, Zeros(1)) == now
  {
  }

  /** Zeros exactly the range, a page at a time, and fails exactly when part of it is unmapped; but for
      whole pages up to 2^64 one byte too many is let pass. */
  method ZeroFill(uc: Unicorn, addr0: U64, size0: U64) returns (ok: bool)
    modifies uc
    ensures Bounded(old(uc.cells)) ==>
      && (ok <==> AllMapped(old(uc.cells), addr0, size0) || OneTooMany(old(uc.cells), addr0, size0))
      && (AllMapped(old(uc.cells), addr0, size0) ==> uc.cells == WriteCells(old(uc.cells), addr0, Zeros(size0)))
      && (OneTooMany(old(uc.cells), addr0, size0) ==> uc.cells == WriteCells(old(uc.cells), addr0, Zeros(size0 - 1)))
    ensures uc.cells.Keys == old(uc.cells).Keys
  {
    ghost var was := uc.cells;
    ghost var done: nat := 0;
    var addr, size := addr0, size0;
    assert WriteCells(was, addr0, Zeros(0)) == was;
    while size > 0
      invariant Bounded(was) ==> Zeroing(was, uc.cells, addr0, size0, done, addr, size)
      invariant uc.cells.Keys == was.Keys
    {
      var writeSize := if size < 0x1000 then size else 0x1000;
      if Bounded(was) {
        ZeroNext(was, uc.cells, addr0, size0, done, addr, size, writeSize);
      }
      ok := uc.MemWrite(addr, Zeros(writeSize));
      if !ok {
        return false;
      }
      addr := SatAdd(addr, writeSize);
      size := SatSub(size, writeSize);
      done := done + writeSize;
    }
    if Bounded(was) {
      ZeroingEnds(was, uc.cells, addr0, size0, done, addr);
    }
    return true;
  }

  lemma ZeroNext(was: Cells, now: Cells, addr0: U64, size0: U64, done: nat, addr: U64, size: U64, w: U64)
    requires Bounded(was) && Zeroing(was, now, addr0, size0, done, addr, size)
    requires size > 0 && w == if size < 0x1000 then size else 0x1000
    ensures AllMapped(now, addr, w) ==>
      Zeroing(was, WriteCells(now, addr, Zeros(w)), addr0, size0, done + w, SatAdd(addr, w), SatSub(size, w))
    ensures !AllMapped(now, addr, w) ==> !AllMapped(was, addr0, size0) && !OneTooMany(was, addr0, size0)
  {
    if addr0 + done <= MAX_U64 {
      ZeroInside(was, now, addr0, size0, done, addr, size, w);
    } else {
      ZeroPastEnd(was, now, addr0, size0, done, addr, size, w);
    }
  }

  lemma ZeroingEnds(was: Cells, now: Cells, addr0: U64, size0: U64, done: nat, addr: U64)
    requires Bounded(was) && Zeroing(was, now, addr0, size0, done, addr, 0)
    ensures AllMapped(was, addr0, size0) || OneTooMany(was, addr0, size0)
    ensures AllMapped(was, addr0, size0) ==> now == WriteCells(was, addr0, Zeros(size0))
    ensures OneTooMany(was, addr0, size0) ==> now == WriteCells(was, addr0, Zeros(size0 - 1))
  {
    if OneTooMany(was, addr0, size0) {
      assert addr0 + size0 as int - 1 !in was;
    }
    if AllMapped(was, addr0, size0) && size0 > 0 {
      assert addr0 + size0 as int - 1 in was;
    }
  }

  lemma BelowIsExact(cells: Cells, addr: U64, size: U64)
    requires Below(cells)
    ensures Bounded(cells) && !OneTooMany(cells, addr, size)
  {
    assert MAX_U64 !in cells;
  }

  // ---- segments

  /** The byte at an address of a segment's pages: file content, else zero. */
  function ImageByte(bias: U64, seg: Segment, a: int): Byte {
    var base := Base(bias, seg);
    if base <= a < base + |seg.content| then seg.content[a - base] else 0
  }

  predicate OnPages(bias: U64, seg: Segment, a: int) {
    PageStart(bias, seg) <= a < PageEnd(bias, seg)
  }

  /** The engine with the pages of a segment in it. */
  ghost function WithSegment(cells: Cells, bias: U64, seg: Segment): Cells {
    cells + map a | PageStart(bias, seg) <= a < PageEnd(bias, seg) && OnPages(bias, seg, a)
              :: Cell(SegProt(seg), ImageByte(bias, seg, a))
  }

  predicate CanLoad(cells: Cells, bias: U64, seg: Segment) {
    InReach(bias, seg) && forall a :: PageStart(bias, seg) <= a < PageEnd(bias, seg) ==> a !in cells
  }

  /** The engine with the bare pages of a segment in it. */
  ghost function WithPages(cells: Cells, bias: U64, seg: Segment): Cells
    requires InReach(bias, seg)
  {
    SegmentInPages(bias, seg);
    MapCells(cells, PageStart(bias, seg), PageEnd(bias, seg) - PageStart(bias, seg), SegProt(seg))
  }

  ghost function Written(cells: Cells, base: int, seg: Segment): Cells
    requires Fits(seg)
  {
    WriteCells(WriteCells(cells, base, seg.content), base + |seg.content|, Zeros(seg.vsize - |seg.content|))
  }

  lemma WrittenAt(cells: Cells, base: int, seg: Segment, a: int)
    requires Fits(seg)
    ensures a in Written(cells, base, seg) <==> a in cells
    ensures a in cells ==> Written(cells, base, seg)[a] == cells[a].(byte :=
      if base <= a < base + |seg.content| then seg.content[a - base]
      else if base <= a < base + seg.vsize then 0 else cells[a].byte)
  {
  }

  lemma WithPagesAt(cells: Cells, bias: U64, seg: Segment, a: int)
    requires InReach(bias, seg)
    ensures a in WithPages(cells, bias, seg) <==> a in cells || OnPages(bias, seg, a)
    ensures OnPages(bias, seg, a) ==> WithPages(cells, bias, seg)[a] == Cell(SegProt(seg), 0)
    ensures a in cells && !OnPages(bias, seg, a) ==> WithPages(cells, bias, seg)[a] == cells[a]
  {
    SegmentInPages(bias, seg);
    var start, end := PageStart(bias, seg), PageEnd(bias, seg);
    MapCellsAt(cells, start, end - start, SegProt(seg), a);
    assert OnPages(bias, seg, a) <==> InRange(a, start, end - start);
  }

  lemma WithSegmentCell(cells: Cells, bias: U64, seg: Segment, a: int)
    requires OnPages(bias, seg, a)
    ensures a in WithSegment(cells, bias, seg)
    ensures WithSegment(cells, bias, seg)[a] == Cell(SegProt(seg), ImageByte(bias, seg, a))
  {
  }

  lemma WithSegmentElsewhere(cells: Cells, bias: U64, seg: Segment, a: int)
    requires !OnPages(bias, seg, a)
    ensures a in WithSegment(cells, bias, seg) <==> a in cells
    ensures a in cells ==> WithSegment(cells, bias, seg)[a] == cells[a]
  {
  }

  /** A cell of fresh pages, and of the same pages once filled. */
  predicate FreshAndFull(pages: Cells, goal: Cells, inside: bool, prot: Prot, byte: Byte, a: int) {
    if inside then a in pages && pages[a] == Cell(prot, 0) && a in goal && goal[a] == Cell(prot, byte)
    else (a in pages <==> a in goal) && (a in goal ==> pages[a] == goal[a])
  }

  lemma PagesAndSegment(cells: Cells, bias: U64, seg: Segment, a: int)
    requires InReach(bias, seg)
    ensures FreshAndFull(WithPages(cells, bias, seg), WithSegment(cells, bias, seg), OnPages(bias, seg, a),
                         SegProt(seg), ImageByte(bias, seg, a), a)
  {
    WithPagesAt(cells, bias, seg, a);
    if OnPages(bias, seg, a) {
      WithSegmentCell(cells, bias, seg, a);
    } else {
      WithSegmentElsewhere(cells, bias, seg, a);
    }
  }

  lemma WrittenInside(pages: Cells, goal: Cells, base: int, seg: Segment, inside: bool, prot: Prot, byte: Byte, a: int)
    requires Fits(seg) && FreshAndFull(pages, goal, inside, prot, byte, a)
    requires base <= a < base + seg.vsize ==> inside
    requires byte == if base <= a < base + |seg.content| then seg.content[a - base] else 0
    ensures a in Written(pages, base, seg) <==> a in goal
    ensures a in goal ==> Written(pages, base, seg)[a] == goal[a]
  {
    WrittenAt(pages, base, seg, a);
  }

  /** Content, then zeros, over fresh pages. */
  lemma ContentThenZeros(cells: Cells, bias: U64, seg: Segment)
    requires InReach(bias, seg) && Fits(seg)
    ensures Written(WithPages(cells, bias, seg), Base(bias, seg), seg) == WithSegment(cells, bias, seg)
  {
    var pages, goal := WithPages(cells, bias, seg), WithSegment(cells, bias, seg);
    var left := Written(pages, Base(bias, seg), seg);
    forall a ensures (a in left <==> a in goal) && (a in goal ==> left[a] == goal[a]) {
      ReachedAddress(bias, seg, a);
      PagesAndSegment(cells, bias, seg, a);
      WrittenInside(pages, goal, Base(bias, seg), seg, OnPages(bias, seg, a), SegProt(seg), ImageByte(bias, seg, a), a);
    }
  }

  lemma NoContent(cells: Cells, addr: int)
    ensures WriteCells(cells, addr, []) == cells
  {
  }

  /** The engine once content and zeros are written, None if some of the range is unmapped. */
  ghost function Filled(cells: Cells, base: U64, seg: Segment): Option<Cells>
    requires Fits(seg)
  {
    var bss := seg.vsize - |seg.content|;
    if AllMapped(cells, base, |seg.content|) && AllMapped(cells, base + |seg.content|, bss) then
      Some(Written(cells, base, seg))
    else None
  }

  lemma UnreachableIsUnmapped(cells: Cells, bias: U64, seg: Segment)
    requires !InReach(bias, seg) && Fits(seg) && Loads(seg) && Low(cells)
    ensures Filled(cells, Base(bias, seg), seg) == None
  {
    var base, last := Base(bias, seg), Base(bias, seg) + seg.vsize as int - 1;
    assert last !in cells;
  }

  lemma PagesOfSegment(cells: Cells, bias: U64, seg: Segment, first: Page, last: Page)
    requires InReach(bias, seg) && first < last
    requires Address(first) == PageStart(bias, seg) && Address(last) == PageEnd(bias, seg)
    ensures CanLoad(cells, bias, seg) <==> Unmapped(cells, first, last)
    ensures WithPages(cells, bias, seg) == MapPages(cells, first, last, SegProt(seg))
  {
  }

  /** What mapping the chunks of a page range leaves. */
  lemma PagesMapped(was: Space, prot: Prot, labelOf: int -> string, first: Page, last: Page)
    ensures Agree(was) ==> Agree(MapChunks(was, Chunks(first, last, labelOf), prot).0)
    ensures last == 0 ==> MapChunks(was, Chunks(first, last, labelOf), prot) == (was, true)
    ensures first < last ==>
      MapChunks(was, Chunks(first, last, labelOf), prot).1 == Unmapped(was.cells, first, last)
    ensures first < last && MapChunks(was, Chunks(first, last, labelOf), prot).1 ==>
      MapChunks(was, Chunks(first, last, labelOf), prot).0.cells == MapPages(was.cells, first, last, prot)
  {
    if Agree(was) {
      MapChunksAgree(was, Chunks(first, last, labelOf), prot);
    }
    if first < last {
      ChunksMapLikeOne(was, first, last, prot, labelOf);
    }
  }

  /** Content and zero fill of a mapped segment. */
  method FillSegment(vk: Valkyrie, vaddr: U64, seg: Segment) returns (ok: bool)
    requires |seg.content| <= MAX_U64
    modifies vk.uc
    ensures vk.uc.cells.Keys == old(vk.uc.cells).Keys
    ensures Below(old(vk.uc.cells)) && Fits(seg) ==> (ok <==> Filled(old(vk.uc.cells), vaddr, seg).Some?)
    ensures Below(old(vk.uc.cells)) && Fits(seg) && ok ==> Some(vk.uc.cells) == Filled(old(vk.uc.cells), vaddr, seg)
  {
    ghost var was := vk.uc.cells;
    if seg.content != [] {
      ok := vk.mem.Write(vk.uc, vaddr, seg.content);
      if !ok {
        return false;
      }
      assert Below(was) ==> vaddr + |seg.content| as int - 1 in was;
    }
    NoContent(was, vaddr);
    ghost var filled := vk.uc.cells;
    assert filled == WriteCells(was, vaddr, seg.content);
    assert forall a :: a in filled <==> a in was;
    NoContent(filled, vaddr + |seg.content|);
    var bssSize := SatSub(seg.vsize, |seg.content|);
    ok := true;
    if Below(was) {
      BelowIsExact(filled, WrapAdd(vaddr, |seg.content|), bssSize);
    }
    if bssSize > 0 {
      ok := ZeroFill(vk.uc, WrapAdd(vaddr, |seg.content|), bssSize);
    }
  }

  /** The pages of a segment, before anything is written to them. */
  method MapSegmentPages(vk: Valkyrie, seg: Segment, bias: U64, sections: seq<SectionSpan>, prefix: Option<string>)
    returns (ok: bool)
    requires Loads(seg)
    modifies vk.mem`regions, vk.uc
    ensures Agree(old(vk.AddressSpace())) ==> Agree(vk.AddressSpace())
    ensures !InReach(bias, seg) ==> ok && vk.AddressSpace() == old(vk.AddressSpace())
    ensures InReach(bias, seg) ==> ok == CanLoad(old(vk.uc.cells), bias, seg)
    ensures InReach(bias, seg) && ok ==> vk.uc.cells == WithPages(old(vk.uc.cells), bias, seg)
  {
    ghost var was := vk.AddressSpace();
    PageBounds(bias, seg);
    var vaddr := Base(bias, seg);
    var alignedStart := AlignDown(vaddr);
    var alignedEnd := AlignUp(SatAdd(vaddr, seg.vsize));
    ghost var first, last := FirstPage(bias, seg), EndPage(bias, seg);
    ok := MapSegmentBySection(vk, alignedStart, alignedEnd, SegProt(seg), sections, prefix, first, last,
                              Labels(sections, prefix));
    PagesMapped(was, SegProt(seg), Labels(sections, prefix), first, last);
    if InReach(bias, seg) {
      PagesOfSegment(was.cells, bias, seg, first, last);
    }
  }

  lemma StaysLow(cells: Cells, bias: U64, seg: Segment)
    requires Low(cells) && InReach(bias, seg)
    ensures Low(WithPages(cells, bias, seg))
  {
    forall a | a in WithPages(cells, bias, seg) ensures 0 <= a < LAST_PAGE {
      WithPagesAt(cells, bias, seg, a);
    }
  }

  /** One turn of the loop of `map_elf_binary`. */
  method MapSegment(vk: Valkyrie, seg: Segment, bias: U64, sections: seq<SectionSpan>, prefix: Option<string>)
    returns (ok: bool)
    requires Loads(seg) && |seg.content| <= MAX_U64
    modifies vk.mem`regions, vk.uc
    ensures Agree(old(vk.AddressSpace())) ==> Agree(vk.AddressSpace())
    ensures Low(old(vk.uc.cells)) && Fits(seg) ==> ok == CanLoad(old(vk.uc.cells), bias, seg)
    ensures Low(old(vk.uc.cells)) && Fits(seg) && ok ==>
      vk.uc.cells == WithSegment(old(vk.uc.cells), bias, seg) && Low(vk.uc.cells)
    ensures Low(old(vk.uc.cells)) && Fits(seg) && ok ==> AllLoaded(vk.uc.cells, bias, seg)
  {
    ghost var was := vk.AddressSpace();
    ok := MapSegmentPages(vk, seg, bias, sections, prefix);
    if !ok {
      return false;
    }
    ghost var mapped := vk.AddressSpace();
    ok := FillSegment(vk, Base(bias, seg), seg);
    CellsOfMap(mapped, vk.AddressSpace());
    if Low(was.cells) && Fits(seg) {
      if InReach(bias, seg) {
        SegmentFills(was.cells, bias, seg);
        StaysLow(was.cells, bias, seg);
        WithSegmentLoads(was.cells, bias, seg);
      } else {
        UnreachableIsUnmapped(mapped.cells, bias, seg);
      }
    }
  }

  /** The address is on a page that has a byte of the segment, at load bias plus virtual address. */
  predicate OnPageNumbers(bias: U64, seg: Segment, a: nat) {
    var start, end := bias as int + seg.vaddr as int, bias as int + seg.vaddr as int + seg.vsize as int;
    start / 0x1000 <= a / 0x1000 <= (end - 1) / 0x1000
  }

  /** An address of such a page has the permissions of the header, and the byte of the content that goes
      there or else zero. */
  predicate CellLoaded(cells: Cells, bias: U64, seg: Segment, a: int) {
    var start := bias as int + seg.vaddr as int;
    && a in cells
    && cells[a].prot == Prot(seg.flags / 4 % 2 == 1, seg.flags / 2 % 2 == 1, seg.flags % 2 == 1)
    && cells[a].byte == if start <= a < start + |seg.content| then seg.content[a - start] else 0
  }

  ghost predicate AllLoaded(cells: Cells, bias: U64, seg: Segment) {
    forall a: nat :: OnPageNumbers(bias, seg, a) ==> CellLoaded(cells, bias, seg, a)
  }

  /** A segment within reach is not moved by saturation, and its pages are those its addresses lie on. */
  lemma ReachedAddress(bias: U64, seg: Segment, a: int)
    requires InReach(bias, seg)
    ensures Base(bias, seg) == bias as int + seg.vaddr
    ensures Base(bias, seg) <= a < Base(bias, seg) + seg.vsize ==> OnPages(bias, seg, a)
  {
    SegmentInPages(bias, seg);
  }

  lemma CellIsLoaded(cells: Cells, bias: U64, seg: Segment, a: int)
    requires Base(bias, seg) == bias as int + seg.vaddr
    requires a in cells && cells[a] == Cell(SegProt(seg), ImageByte(bias, seg, a))
    ensures CellLoaded(cells, bias, seg, a)
  {
  }

  lemma WithSegmentLoadsAt(cells: Cells, bias: U64, seg: Segment, a: nat)
    requires InReach(bias, seg) && seg.vsize != 0
    ensures OnPageNumbers(bias, seg, a) ==> CellLoaded(WithSegment(cells, bias, seg), bias, seg, a)
  {
    PageNumbers(bias, seg, a);
    if OnPages(bias, seg, a) {
      ReachedAddress(bias, seg, a);
      WithSegmentCell(cells, bias, seg, a);
      CellIsLoaded(WithSegment(cells, bias, seg), bias, seg, a);
    }
  }

  lemma WithSegmentLoads(cells: Cells, bias: U64, seg: Segment)
    requires InReach(bias, seg) && seg.vsize != 0
    ensures AllLoaded(WithSegment(cells, bias, seg), bias, seg)
  {
    forall a: nat ensures OnPageNumbers(bias, seg, a) ==> CellLoaded(WithSegment(cells, bias, seg), bias, seg, a) {
      WithSegmentLoadsAt(cells, bias, seg, a);
    }
  }

  /** What it takes to load a segment, in the addresses of its header: it ends below the last page, and
      nothing is mapped on its pages. */
  lemma CanLoadExactly(cells: Cells, bias: U64, seg: Segment)
    requires seg.vsize != 0
    ensures CanLoad(cells, bias, seg) <==> Unoccupied(cells, bias, seg)
  {
    if InReach(bias, seg) {
      forall a: nat ensures OnPages(bias, seg, a) <==> OnPageNumbers(bias, seg, a) {
        PageNumbers(bias, seg, a);
      }
      assert forall a :: OnPages(bias, seg, a) ==> 0 <= a;
    }
  }

  lemma PageNumbers(bias: U64, seg: Segment, a: nat)
    requires InReach(bias, seg) && seg.vsize != 0
    ensures OnPages(bias, seg, a) <==> OnPageNumbers(bias, seg, a)
  {
    ReachedAddress(bias, seg, a);
  }

  lemma SegmentFills(cells: Cells, bias: U64, seg: Segment)
    requires InReach(bias, seg) && Fits(seg)
    ensures Filled(WithPages(cells, bias, seg), Base(bias, seg), seg) == Some(WithSegment(cells, bias, seg))
  {
    SegmentInPages(bias, seg);
    assert AllMapped(WithPages(cells, bias, seg), Base(bias, seg), seg.vsize);
    MappedSplit(WithPages(cells, bias, seg), Base(bias, seg), Base(bias, seg) + |seg.content|,
        Base(bias, seg) + seg.vsize);
    ContentThenZeros(cells, bias, seg);
  }

  // ---- the whole file

  /** The engine after loading the segments in order; None if one cannot be loaded (LoadsExactly says
      when that is). */
  ghost function LoadAll(cells: Cells, bias: U64, segs: seq<Segment>): Option<Cells> {
    if segs == [] then Some(cells)
    else match LoadAll(cells, bias, segs[..|segs| - 1])
      case None => None
      case Some(c) =>
        var seg := segs[|segs| - 1];
        if !Loads(seg) then Some(c)
        else if CanLoad(c, bias, seg) then Some(WithSegment(c, bias, seg))
        else None
  }

  /** Lowest and highest page address of the loadable segments, tight on both sides. */
  ghost predicate IsHull(min: U64, max: U64, bias: U64, segs: seq<Segment>) {
    && (forall seg :: seg in segs && Loads(seg) ==> min <= PageStart(bias, seg) && PageEnd(bias, seg) <= max)
    && (exists seg :: seg in segs && Loads(seg) && min == PageStart(bias, seg))
    && (exists seg :: seg in segs && Loads(seg) && max == PageEnd(bias, seg))
  }

  ghost predicate SomeLoads(segs: seq<Segment>) {
    exists seg :: seg in segs && Loads(seg)
  }

  ghost predicate AllFit(segs: seq<Segment>) {
    forall i :: 0 <= i < |segs| && Loads(segs[i]) ==> Fits(segs[i])
  }

  lemma {:induction false} LoadFails(cells: Cells, bias: U64, segs: seq<Segment>, n: nat)
    requires n <= |segs| && LoadAll(cells, bias, segs[..n]) == None
    ensures LoadAll(cells, bias, segs) == None
    decreases |segs| - n
  {
    if n == |segs| {
      assert segs[..n] == segs;
    } else {
      assert segs[..n + 1][..n] == segs[..n];
      LoadFails(cells, bias, segs, n + 1);
    }
  }

  lemma LoadNext(cells: Cells, bias: U64, segs: seq<Segment>, n: nat)
    requires n < |segs|
    ensures LoadAll(cells, bias, segs[..n + 1]) ==
      match LoadAll(cells, bias, segs[..n])
      case None => None
      case Some(c) =>
        if !Loads(segs[n]) then Some(c)
        else if CanLoad(c, bias, segs[n]) then Some(WithSegment(c, bias, segs[n]))
        else None
  {
    assert segs[..n + 1][..n] == segs[..n];
  }

  // ---- what a loaded file looks like

  /** Nothing that was mapped before is touched. */
  lemma {:induction false} OldMemoryStays(cells: Cells, bias: U64, segs: seq<Segment>, a: int)
    requires LoadAll(cells, bias, segs).Some? && a in cells
    ensures a in LoadAll(cells, bias, segs).value && LoadAll(cells, bias, segs).value[a] == cells[a]
    decreases |segs|
  {
    if segs != [] {
      OldMemoryStays(cells, bias, segs[..|segs| - 1], a);
    }
  }

  /** Every byte of every loaded segment is its file content, then zero up to its memory size and on
      to the end of its last page; and every new address belongs to such a page. */
  lemma {:induction false} SegmentsAreLoaded(cells: Cells, bias: U64, segs: seq<Segment>, i: nat, a: int)
    requires LoadAll(cells, bias, segs).Some? && i < |segs| && Loads(segs[i])
    requires OnPages(bias, segs[i], a)
    ensures a !in cells && a in LoadAll(cells, bias, segs).value
    ensures LoadAll(cells, bias, segs).value[a] == Cell(SegProt(segs[i]), ImageByte(bias, segs[i], a))
    decreases |segs|
  {
    var init, last := segs[..|segs| - 1], segs[|segs| - 1];
    var before := LoadAll(cells, bias, init).value;
    if i == |segs| - 1 {
      if a in cells {
        OldMemoryStays(cells, bias, init, a);
      }
    } else {
      SegmentsAreLoaded(cells, bias, init, i, a);
    }
  }

  lemma {:induction false} OnlySegmentsAreLoaded(cells: Cells, bias: U64, segs: seq<Segment>, a: int)
    requires LoadAll(cells, bias, segs).Some? && a in LoadAll(cells, bias, segs).value && a !in cells
    ensures exists i :: 0 <= i < |segs| && Loads(segs[i]) && OnPages(bias, segs[i], a)
    decreases |segs|
  {
    var init, last := segs[..|segs| - 1], segs[|segs| - 1];
    if Loads(last) && OnPages(bias, last, a) {
    } else {
      OnlySegmentsAreLoaded(cells, bias, init, a);
      var i :| 0 <= i < |init| && Loads(init[i]) && OnPages(bias, init[i], a);
      assert segs[i] == init[i];
    }
  }

  lemma FileIsLoadedAt(cells: Cells, bias: U64, segs: seq<Segment>, i: nat, a: nat)
    requires LoadAll(cells, bias, segs).Some? && i < |segs| && Loads(segs[i]) && InReach(bias, segs[i])
    ensures OnPageNumbers(bias, segs[i], a) ==> CellLoaded(LoadAll(cells, bias, segs).value, bias, segs[i], a)
  {
    PageNumbers(bias, segs[i], a);
    if OnPages(bias, segs[i], a) {
      ReachedAddress(bias, segs[i], a);
      SegmentsAreLoaded(cells, bias, segs, i, a);
      CellIsLoaded(LoadAll(cells, bias, segs).value, bias, segs[i], a);
    }
  }

  /** In the addresses of the file's headers. */
  lemma FileIsLoaded(cells: Cells, bias: U64, segs: seq<Segment>, i: nat)
    requires LoadAll(cells, bias, segs).Some? && i < |segs| && Loads(segs[i])
    ensures AllLoaded(LoadAll(cells, bias, segs).value, bias, segs[i])
    ensures bias as int + segs[i].vaddr as int + segs[i].vsize as int <= 0xFFFF_FFFF_FFFF_F000
  {
    var seg, now := segs[i], LoadAll(cells, bias, segs).value;
    LoadsExactly(cells, bias, segs);
    forall a: nat ensures OnPageNumbers(bias, seg, a) ==> CellLoaded(now, bias, seg, a) {
      FileIsLoadedAt(cells, bias, segs, i, a);
    }
  }

  /** Two segments that share a page are never both loaded. */
  lemma LoadedPagesAreDisjoint(cells: Cells, bias: U64, segs: seq<Segment>, i: nat, j: nat, a: int)
    requires LoadAll(cells, bias, segs).Some? && i < j < |segs| && Loads(segs[i]) && Loads(segs[j])
    ensures !(OnPages(bias, segs[i], a) && OnPages(bias, segs[j], a))
    decreases |segs|
  {
    var init := segs[..|segs| - 1];
    if j < |segs| - 1 {
      LoadedPagesAreDisjoint(cells, bias, init, i, j, a);
    } else if OnPages(bias, segs[i], a) {
      SegmentsAreLoaded(cells, bias, init, i, a);
    }
  }

  /** Two segments have a page in common. */
  ghost predicate SharePage(bias: U64, seg: Segment, other: Segment) {
    exists a :: OnPages(bias, seg, a) && OnPages(bias, other, a)
  }

  /** Every loadable segment fits the address space on pages unmapped at the start, and no two have a
      page in common. */
  ghost predicate Loadable(cells: Cells, bias: U64, segs: seq<Segment>) {
    && (forall i :: 0 <= i < |segs| && Loads(segs[i]) ==> CanLoad(cells, bias, segs[i]))
    && (forall i, j :: 0 <= i < j < |segs| && Loads(segs[i]) && Loads(segs[j]) ==> !SharePage(bias, segs[i], segs[j]))
  }

  /** What is mapped after some segments have been loaded. */
  lemma LoadedAt(cells: Cells, bias: U64, segs: seq<Segment>, a: int)
    requires LoadAll(cells, bias, segs).Some?
    ensures a in LoadAll(cells, bias, segs).value <==>
      a in cells || exists i :: 0 <= i < |segs| && Loads(segs[i]) && OnPages(bias, segs[i], a)
  {
    if a in cells {
      OldMemoryStays(cells, bias, segs, a);
    } else if a in LoadAll(cells, bias, segs).value {
      OnlySegmentsAreLoaded(cells, bias, segs, a);
    } else if i :| 0 <= i < |segs| && Loads(segs[i]) && OnPages(bias, segs[i], a) {
      SegmentsAreLoaded(cells, bias, segs, i, a);
    }
  }

  lemma LastLoads(cells: Cells, bias: U64, init: seq<Segment>, seg: Segment)
    requires LoadAll(cells, bias, init).Some?
    ensures CanLoad(LoadAll(cells, bias, init).value, bias, seg) <==>
      CanLoad(cells, bias, seg) && forall i :: 0 <= i < |init| && Loads(init[i]) ==> !SharePage(bias, init[i], seg)
  {
    var c := LoadAll(cells, bias, init).value;
    forall a ensures a in c <==>
        a in cells || exists i :: 0 <= i < |init| && Loads(init[i]) && OnPages(bias, init[i], a)
    {
      LoadedAt(cells, bias, init, a);
    }
    if !CanLoad(c, bias, seg) && InReach(bias, seg) {
      var a :| OnPages(bias, seg, a) && a in c;
      if i :| a !in cells && 0 <= i < |init| && Loads(init[i]) && OnPages(bias, init[i], a) {
        assert SharePage(bias, init[i], seg);
      }
    }
    if CanLoad(c, bias, seg) {
      forall i, a | 0 <= i < |init| && Loads(init[i]) && OnPages(bias, init[i], a) ensures !OnPages(bias, seg, a) {
        assert a in c;
      }
    }
  }

  lemma LoadableNext(cells: Cells, bias: U64, init: seq<Segment>, seg: Segment)
    ensures Loadable(cells, bias, init + [seg]) <==>
      && Loadable(cells, bias, init)
      && (Loads(seg) ==> CanLoad(cells, bias, seg)
                         && forall i :: 0 <= i < |init| && Loads(init[i]) ==> !SharePage(bias, init[i], seg))
  {
    var segs := init + [seg];
    assert forall i :: 0 <= i < |init| ==> segs[i] == init[i];
    assert segs[|init|] == seg;
  }

  /** All segments load if and only if they fit, on unmapped pages, with none in common. */
  lemma {:induction false} LoadsExactly(cells: Cells, bias: U64, segs: seq<Segment>)
    ensures LoadAll(cells, bias, segs).Some? <==> Loadable(cells, bias, segs)
    decreases |segs|
  {
    if segs != [] {
      var init, last := segs[..|segs| - 1], segs[|segs| - 1];
      assert segs == init + [last];
      LoadsExactly(cells, bias, init);
      LoadableNext(cells, bias, init, last);
      if LoadAll(cells, bias, init).Some? {
        LastLoads(cells, bias, init, last);
      }
    }
  }

  // ---- the loop over the segments

  /** The bounds the loop keeps. */
  function Hull(bias: U64, segs: seq<Segment>): (U64, U64) {
    if segs == [] then (MAX_U64, 0)
    else
      var hull, seg := Hull(bias, segs[..|segs| - 1]), segs[|segs| - 1];
      var start, end := PageStart(bias, seg), PageEnd(bias, seg);
      if !Loads(seg) then hull
      else (if hull.0 < start then hull.0 else start, if hull.1 > end then hull.1 else end)
  }

  lemma HullNext(bias: U64, segs: seq<Segment>, n: nat)
    requires n < |segs|
    ensures var hull := Hull(bias, segs[..n]);
      var start, end := PageStart(bias, segs[n]), PageEnd(bias, segs[n]);
      Hull(bias, segs[..n + 1]) ==
        if !Loads(segs[n]) then hull
        else (if hull.0 < start then hull.0 else start, if hull.1 > end then hull.1 else end)
  {
    assert segs[..n + 1][..n] == segs[..n];
  }

  ghost predicate HullSoFar(hull: (U64, U64), bias: U64, segs: seq<Segment>) {
    if SomeLoads(segs) then IsHull(hull.0, hull.1, bias, segs) else hull == (MAX_U64, 0)
  }

  lemma HullGrows(hull: (U64, U64), bias: U64, init: seq<Segment>, seg: Segment, next: (U64, U64))
    requires HullSoFar(hull, bias, init)
    requires next == if !Loads(seg) then hull
      else (if hull.0 < PageStart(bias, seg) then hull.0 else PageStart(bias, seg),
            if hull.1 > PageEnd(bias, seg) then hull.1 else PageEnd(bias, seg))
    ensures HullSoFar(next, bias, init + [seg])
  {
    assert forall s :: s in init + [seg] <==> s in init || s == seg;
  }

  lemma {:induction false} HullIsTight(bias: U64, segs: seq<Segment>)
    ensures HullSoFar(Hull(bias, segs), bias, segs)
    decreases |segs|
  {
    if segs != [] {
      var init, last := segs[..|segs| - 1], segs[|segs| - 1];
      HullIsTight(bias, init);
      assert segs == init + [last];
      HullGrows(Hull(bias, init), bias, init, last, Hull(bias, segs));
    }
  }

  lemma HullIsLow(hull: (U64, U64), bias: U64, segs: seq<Segment>)
    requires HullSoFar(hull, bias, segs)
    ensures hull.0 == MAX_U64 <==> !SomeLoads(segs)
  {
  }

  ghost predicate LoadedSoFar(was: Space, now: Space, bias: U64, segs: seq<Segment>) {
    Low(now.cells) && LoadAll(was.cells, bias, segs) == Some(now.cells)
  }

  /** Mid-way through the loop over the segments. */
  ghost predicate Loading(was: Space, now: Space, bias: U64, segs: seq<Segment>, n: nat)
    requires n <= |segs|
  {
    && (Agree(was) ==> Agree(now))
    && (Low(was.cells) && AllFit(segs) ==> LoadedSoFar(was, now, bias, segs[..n]))
  }

  lemma LoadingSkips(was: Space, now: Space, bias: U64, segs: seq<Segment>, n: nat)
    requires n < |segs| && Loading(was, now, bias, segs, n) && !Loads(segs[n])
    ensures Loading(was, now, bias, segs, n + 1)
  {
    LoadNext(was.cells, bias, segs, n);
  }

  lemma LoadingNext(was: Space, now: Space, later: Space, bias: U64, segs: seq<Segment>, n: nat, ok: bool)
    requires n < |segs| && Loading(was, now, bias, segs, n) && Loads(segs[n])
    requires Agree(now) ==> Agree(later)
    requires Low(now.cells) && Fits(segs[n]) ==> ok == CanLoad(now.cells, bias, segs[n])
    requires Low(now.cells) && Fits(segs[n]) && ok ==>
      later.cells == WithSegment(now.cells, bias, segs[n]) && Low(later.cells)
    ensures Agree(was) ==> Agree(later)
    ensures ok ==> Loading(was, later, bias, segs, n + 1)
    ensures !ok && Low(was.cells) && AllFit(segs) ==> !Loadable(was.cells, bias, segs)
  {
    LoadNext(was.cells, bias, segs, n);
    LoadsExactly(was.cells, bias, segs);
    if !ok && Low(was.cells) && AllFit(segs) {
      LoadFails(was.cells, bias, segs, n + 1);
    }
  }

  lemma LoadingEnds(was: Space, now: Space, bias: U64, segs: seq<Segment>)
    requires Loading(was, now, bias, segs, |segs|)
    ensures Low(was.cells) && AllFit(segs) ==>
      Loadable(was.cells, bias, segs) && LoadAll(was.cells, bias, segs) == Some(now.cells)
  {
    assert segs[..|segs|] == segs;
    LoadsExactly(was.cells, bias, segs);
  }

  /** From the page of the lowest address that is loaded to the end of the page of the highest one. */
  ghost predicate HullOf(min: int, max: int, bias: U64, segs: seq<Segment>) {
    && min % 0x1000 == 0 && max % 0x1000 == 0
    && (forall seg :: seg in segs && seg.isLoad && seg.vsize != 0 ==>
          min <= bias as int + seg.vaddr as int && bias as int + seg.vaddr as int + seg.vsize as int <= max)
    && (exists seg :: seg in segs && seg.isLoad && seg.vsize != 0 && bias as int + seg.vaddr as int < min + 0x1000)
    && (exists seg :: seg in segs && seg.isLoad && seg.vsize != 0
                      && max - 0x1000 < bias as int + seg.vaddr as int + seg.vsize as int)
  }

  lemma HullInAddresses(cells: Cells, min: U64, max: U64, bias: U64, segs: seq<Segment>)
    requires Loadable(cells, bias, segs) && IsHull(min, max, bias, segs)
    ensures HullOf(min, max, bias, segs)
  {
    forall seg | seg in segs && Loads(seg)
      ensures Base(bias, seg) == bias as int + seg.vaddr && InReach(bias, seg)
      ensures PageStart(bias, seg) <= bias as int + seg.vaddr as int < PageStart(bias, seg) + 0x1000
      ensures PageEnd(bias, seg) - 0x1000 < bias as int + seg.vaddr as int + seg.vsize as int <= PageEnd(bias, seg)
    {
      var i :| 0 <= i < |segs| && segs[i] == seg;
      ReachedAddress(bias, seg, 0);
    }
  }

  lemma AllAreLoaded(cells: Cells, bias: U64, segs: seq<Segment>)
    requires LoadAll(cells, bias, segs).Some?
    ensures FileLoaded(LoadAll(cells, bias, segs).value, bias, segs)
  {
    forall i | 0 <= i < |segs| && Loads(segs[i]) ensures AllLoaded(LoadAll(cells, bias, segs).value, bias, segs[i]) {
      FileIsLoaded(cells, bias, segs, i);
    }
  }

  /** Every loadable segment ends below the last page, on pages unmapped at the start, and no two have a
      page in common: in the addresses of the headers. */
  ghost predicate FileFits(cells: Cells, bias: U64, segs: seq<Segment>) {
    && (forall i :: 0 <= i < |segs| && segs[i].isLoad && segs[i].vsize != 0 ==> Unoccupied(cells, bias, segs[i]))
    && (forall i, j ::
          0 <= i < j < |segs| && segs[i].isLoad && segs[i].vsize != 0 && segs[j].isLoad && segs[j].vsize != 0 ==>
            NoPageShared(bias, segs[i], segs[j]))
  }

  ghost predicate Unoccupied(cells: Cells, bias: U64, seg: Segment) {
    && bias as int + seg.vaddr as int + seg.vsize as int <= 0xFFFF_FFFF_FFFF_F000
    && forall a: nat :: OnPageNumbers(bias, seg, a) ==> a !in cells
  }

  ghost predicate NoPageShared(bias: U64, seg: Segment, other: Segment) {
    forall a: nat :: !(OnPageNumbers(bias, seg, a) && OnPageNumbers(bias, other, a))
  }

  lemma SharedExactly(bias: U64, seg: Segment, other: Segment)
    requires InReach(bias, seg) && seg.vsize != 0 && InReach(bias, other) && other.vsize != 0
    ensures !SharePage(bias, seg, other) <==> NoPageShared(bias, seg, other)
  {
    forall a: nat ensures OnPages(bias, seg, a) <==> OnPageNumbers(bias, seg, a)
                  ensures OnPages(bias, other, a) <==> OnPageNumbers(bias, other, a) {
      PageNumbers(bias, seg, a);
      PageNumbers(bias, other, a);
    }
    if a :| OnPages(bias, seg, a) && OnPages(bias, other, a) {
      assert 0 <= a && OnPageNumbers(bias, seg, a);
    }
  }

  lemma LoadableExactly(cells: Cells, bias: U64, segs: seq<Segment>)
    ensures Loadable(cells, bias, segs) <==> FileFits(cells, bias, segs)
  {
    forall i | 0 <= i < |segs| && Loads(segs[i])
      ensures CanLoad(cells, bias, segs[i]) <==> Unoccupied(cells, bias, segs[i])
    {
      CanLoadExactly(cells, bias, segs[i]);
    }
    forall i, j | 0 <= i < j < |segs| && Loads(segs[i]) && Loads(segs[j]) && InReach(bias, segs[i])
                  && InReach(bias, segs[j])
      ensures !SharePage(bias, segs[i], segs[j]) <==> NoPageShared(bias, segs[i], segs[j])
    {
      SharedExactly(bias, segs[i], segs[j]);
    }
  }

  /** All that is to be loaded is, where the headers say. */
  ghost predicate FileLoaded(cells: Cells, bias: U64, segs: seq<Segment>) {
    forall i :: 0 <= i < |segs| && segs[i].isLoad && segs[i].vsize != 0 ==> AllLoaded(cells, bias, segs[i])
  }

  /** `map_elf_binary` up to the program-header lookup: the mapped page range, or None. */
  method MapElfBinary(vk: Valkyrie, segs: seq<Segment>, isShared: bool, baseHint: U64, sections: seq<SectionSpan>,
                      prefix: Option<string>)
    returns (r: Option<(U64, U64)>)
    requires forall i :: 0 <= i < |segs| ==> |segs[i].content| <= MAX_U64
    modifies vk.mem`regions, vk.uc
    ensures Agree(old(vk.AddressSpace())) ==> Agree(vk.AddressSpace())
    ensures var bias := if isShared then baseHint else 0;
      var loaded := LoadAll(old(vk.uc.cells), bias, segs);
      Low(old(vk.uc.cells)) && AllFit(segs) ==>
        && (r.Some? <==> (exists seg :: seg in segs && seg.isLoad && seg.vsize != 0)
                         && FileFits(old(vk.uc.cells), bias, segs))
        && (r.Some? ==> loaded.Some? && vk.uc.cells == loaded.value)
    ensures r.Some? ==> IsHull(r.value.0, r.value.1, if isShared then baseHint else 0, segs)
    ensures Low(old(vk.uc.cells)) && AllFit(segs) && r.Some? ==>
      && FileLoaded(vk.uc.cells, if isShared then baseHint else 0, segs)
      && HullOf(r.value.0, r.value.1, if isShared then baseHint else 0, segs)
  {
    var bias := if isShared then baseHint else 0;
    ghost var was := vk.AddressSpace();
    LoadableExactly(was.cells, bias, segs);
    var minAddr: U64, maxAddr: U64 := MAX_U64, 0;
    for i := 0 to |segs|
      invariant Loading(was, vk.AddressSpace(), bias, segs, i)
      invariant (minAddr, maxAddr) == Hull(bias, segs[..i])
    {
      var seg := segs[i];
      HullNext(bias, segs, i);
      if !seg.isLoad || seg.vsize == 0 {
        LoadingSkips(was, vk.AddressSpace(), bias, segs, i);
        continue;
      }
      ghost var now := vk.AddressSpace();
      var ok := MapSegment(vk, seg, bias, sections, prefix);
      LoadingNext(was, now, vk.AddressSpace(), bias, segs, i, ok);
      if !ok {
        return None;
      }
      var alignedStart, alignedEnd := PageStart(bias, seg), PageEnd(bias, seg);
      minAddr := if minAddr < alignedStart then minAddr else alignedStart;
      maxAddr := if maxAddr > alignedEnd then maxAddr else alignedEnd;
    }
    assert segs[..|segs|] == segs;
    LoadingEnds(was, vk.AddressSpace(), bias, segs);
    HullIsTight(bias, segs);
    HullIsLow((minAddr, maxAddr), bias, segs);
    if minAddr == MAX_U64 {
      return None;
    }
    if Low(was.cells) && AllFit(segs) {
      AllAreLoaded(was.cells, bias, segs);
      HullInAddresses(was.cells, minAddr, maxAddr, bias, segs);
    }
    return Some((minAddr, maxAddr));
  }
}
