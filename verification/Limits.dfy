/** Small runs and inputs on which an expectation fails, for conditions that the theorems on the address
    space, snapshots, segments, thread descriptors, standard input and initial stack carry. */
module Limits {
  import opened Words
  import opened Regions
  import opened Engine
  import opened Mmap
  import opened Emulator
  import opened Syscalls
  import opened AddressSpace
  import opened Tracking
  import opened Heap
  import opened Placement
  import opened Fuzzing
  import opened Restorability
  import opened Rounds
  import opened Protections
  import Bytes
  import Elf
  import Stack
  import Stdin
  import Tls

  /** Two pages at 0x10000 and nothing else. */
  const TWO_PAGES: Space :=
    Space([Region(0x1_0000, 0x2000, PROT_ALL, "data")], MapCells(map[], 0x1_0000, 0x2000, PROT_ALL), 0, 0)

  lemma TwoPagesInOrder()
    ensures Agree(TWO_PAGES) && AllProts(TWO_PAGES)
    ensures forall a :: a in TWO_PAGES.cells <==> 0x1_0000 <= a < 0x1_2000
  {
    var r := Region(0x1_0000, 0x2000, PROT_ALL, "data");
    assert TWO_PAGES.regions == [r];
    forall a ensures a in TWO_PAGES.cells <==> 0x1_0000 <= a < 0x1_2000 {
      MapCellsAt(map[], 0x1_0000, 0x2000, PROT_ALL, a);
    }
    forall a ensures a in TWO_PAGES.cells <==> Covered([r], a) {
      assert Has(r, a) ==> Covered([r], a);
    }
    forall a ensures ProtAt([r], TWO_PAGES.cells, a) {
      MapCellsAt(map[], 0x1_0000, 0x2000, PROT_ALL, a);
    }
  }

  /** A request for anonymous memory at a fixed address. */
  function Fixed(start: U64, size: U64): Call {
    Mmap(start, size, 3, 0x30, 0, NoSuchFd)
  }

  lemma FixedTears(s: Space, start: U64, size: U64)
    requires Same(s) && start != 0 && Aligned(start) && Aligned(size) && size <= LAST_PAGE
    requires PartlyMapped(s.cells, start, size)
    ensures Tears(s, Fixed(start, size))
    ensures MmapStep(s, start, size, 3, 0x30, 0, NoSuchFd) == (Cleared(s, start, size), Fail(ENOMEM))
  {
    assert AlignUp(size) == size by { AlignUpIsLeast(size, size); }
    assert IsFixed(0x30);
    var p := TornLoses(s, start, size);
  }

  const TEARING := Fixed(0x1_1000, 0x2000)

  lemma TearingClears()
    ensures Tears(TWO_PAGES, TEARING)
    ensures MmapStep(TWO_PAGES, 0x1_1000, 0x2000, 3, 0x30, 0, NoSuchFd)
         == (Cleared(TWO_PAGES, 0x1_1000, 0x2000), Fail(ENOMEM))
  {
    TwoPagesInOrder();
    AgreeIsSame(TWO_PAGES);
    assert 0x1_1000 in TWO_PAGES.cells && 0x1_2000 !in TWO_PAGES.cells;
    FixedTears(TWO_PAGES, 0x1_1000, 0x2000);
  }

  /** MAP_FIXED over the second page and the unmapped one behind it: the engine refuses to unmap and
      then to map, the guest is told ENOMEM, and the list has lost a page that is still there. */
  lemma FixedMappingTears()
    ensures Tears(TWO_PAGES, TEARING) && !Agree(Step(TWO_PAGES, TEARING))
    ensures MmapStep(TWO_PAGES, 0x1_1000, 0x2000, 3, 0x30, 0, NoSuchFd).1 == Fail(ENOMEM)
    ensures 0x1_1000 in Step(TWO_PAGES, TEARING).cells && !Covered(Step(TWO_PAGES, TEARING).regions, 0x1_1000)
  {
    TwoPagesInOrder();
    TearingClears();
    StepAgree(TWO_PAGES, TEARING);
    RemoveRangeTags(TWO_PAGES.regions, 0x1_1000, 0x2000, 0x1_1000);
  }

  // ---- the last page

  lemma {:induction false} RemovedUntouched(rs: seq<Region>, lo: U64, hi: U64)
    requires forall r :: r in rs ==> Untouched(r, lo, hi)
    ensures Removed(rs, lo, hi) == rs
  {
    if rs != [] {
      assert Untouched(rs[0], lo, hi);
      assert Pieces(rs[0], lo, hi) == [rs[0]];
      RemovedUntouched(rs[1..], lo, hi);
    }
  }

  lemma RemoveNothing(s: Space, start: U64, size: U64)
    requires Same(s) && CanMap(s.cells, start, size)
    ensures RemoveRange(s.regions, start, size) == s.regions
  {
    SameIsInv(s);
    var q := Region(start, size, PROT_ALL, "");
    FreshRegionIsApart(s, start, size, q);
    forall r | r in s.regions ensures Untouched(r, start, SatAdd(start, size)) {
      assert Apart(r, q) && Sized(r);
    }
    RemovedUntouched(s.regions, start, SatAdd(start, size));
  }

  /** Over unmapped memory it adds a region and answers with its address. */
  lemma FixedIsPlaced(s: Space, start: U64, size: U64)
    requires Same(s) && start != 0 && CanMap(s.cells, start, size)
    ensures MmapStep(s, start, size, 3, 0x30, 0, NoSuchFd)
         == (Mapped(s, start, size, Prot(true, true, false), "[mmap]"), Ret(start))
  {
    RemoveNothing(s, start, size);
    assert size <= LAST_PAGE by { PageBelowTop(size); }
    assert AlignUp(size) == size by { AlignUpIsLeast(size, size); }
    assert start in UnmapCells(s.cells, start, size) ==> start in s.cells;
    assert !AllMapped(s.cells, start, size) by { assert start !in s.cells; }
    assert Cleared(s, start, size) == s;
    assert IsFixed(0x30) && IsAnonymous(0x30) && ProtFromFlags(3) == Prot(true, true, false);
  }

  const HIGH: U64 := LAST_PAGE - 0x1000

  lemma HighIsFree(start: U64, size: U64)
    requires Aligned(start) && Aligned(size) && 0 < size && HIGH <= start && start as int + size <= MAX_U64 + 1
    ensures var s := Step(TWO_PAGES, Fixed(start, size));
      s == Mapped(TWO_PAGES, start, size, Prot(true, true, false), "[mmap]") && Same(s)
  {
    TwoPagesInOrder();
    AgreeIsSame(TWO_PAGES);
    FixedIsPlaced(TWO_PAGES, start, size);
    MappedSame(TWO_PAGES, start, size, Prot(true, true, false), "[mmap]");
  }

  const TOP := Region(HIGH, 0x2000, Prot(true, true, false), "[mmap]")

  lemma TopGranted(s: Space)
    requires Agree(s) && CanMap(s.cells, HIGH, 0x2000)
    ensures var t := Mapped(s, HIGH, 0x2000, Prot(true, true, false), "[mmap]");
      Same(t) && !Agree(t) && TOP in t.regions && AllMapped(t.cells, HIGH, 0x1000)
  {
    var t := Mapped(s, HIGH, 0x2000, Prot(true, true, false), "[mmap]");
    AgreeIsSame(s);
    MappedSame(s, HIGH, 0x2000, Prot(true, true, false), "[mmap]");
    AgreeIsSame(t);
    forall a | HIGH <= a < HIGH + 0x1000 ensures a in t.cells {
      MapCellsAt(s.cells, HIGH, 0x2000, Prot(true, true, false), a);
    }
  }

  lemma TopShaved(s: Space)
    requires Same(s) && TOP in s.regions && AllMapped(s.cells, HIGH, 0x1000)
    ensures MunmapStep(s, HIGH, 0x1000).1 == Ret(0) && ShavesTop(s, Munmap(HIGH, 0x1000))
    ensures !Same(Step(s, Munmap(HIGH, 0x1000))) && Lost(Step(s, Munmap(HIGH, 0x1000)), MAX_U64)
  {
    assert AlignUp(0x1000) == 0x1000;
    assert End(TOP) == MAX_U64 + 1 && Shaves(s.regions, HIGH, 0x1000);
    assert CanEdit(s.cells, HIGH, 0x1000);
    StepSame(s, Munmap(HIGH, 0x1000));
    ShavedLoses(s, HIGH, 0x1000);
  }

  /** With the last two pages mapped as one, unmapping the first of them is answered with success and
      leaves the last byte of the address space mapped and not on record. */
  lemma UnmappingShavesTheTop()
    ensures var s := Step(TWO_PAGES, Fixed(HIGH, 0x2000));
      var t := Step(s, Munmap(HIGH, 0x1000));
      && MapsTop(TWO_PAGES, Fixed(HIGH, 0x2000)) && Same(s) && !Agree(s)
      && MunmapStep(s, HIGH, 0x1000).1 == Ret(0) && ShavesTop(s, Munmap(HIGH, 0x1000))
      && !Same(t) && Lost(t, MAX_U64)
  {
    TwoPagesInOrder();
    HighIsFree(HIGH, 0x2000);
    TopGranted(TWO_PAGES);
    TopShaved(Step(TWO_PAGES, Fixed(HIGH, 0x2000)));
    StepAgree(TWO_PAGES, Fixed(HIGH, 0x2000));
    TwoPagesUntorn();
  }

  lemma TwoPagesUntorn()
    ensures !Tears(TWO_PAGES, Fixed(HIGH, 0x2000))
  {
    TwoPagesInOrder();
    assert NoneMapped(TWO_PAGES.cells, HIGH, AlignUp(0x2000));
  }

  const LAST := Region(LAST_PAGE, 0x1000, Prot(true, true, false), "[mmap]")

  lemma NothingBetween(low: Region, c: U64)
    requires Aligned(c) && 0 < End(low) && low.start < LAST_PAGE
    ensures Meets(low, c, LAST_PAGE) || Meets(LAST, c, LAST_PAGE)
  {
    PageBelowTop(c);
  }

  lemma HangsBetween(s: Space, low: Region)
    requires low in s.regions && LAST in s.regions && 0 < End(low) && low.start < LAST_PAGE
    ensures MmapStep(s, 0, LAST_PAGE, 3, 0x20, 0, NoSuchFd).1 == Hang
  {
    forall c: U64 | Aligned(c) ensures !Free(s.regions, c, LAST_PAGE) {
      NothingBetween(low, c);
    }
    assert AlignUp(LAST_PAGE) == LAST_PAGE by { AlignUpIsLeast(LAST_PAGE, LAST_PAGE); }
    MmapHangsExactly(s, 0, LAST_PAGE, 3, 0x20, 0, NoSuchFd);
  }

  /** With the last page mapped, a request for nearly everything is never answered. */
  lemma MmapHangs()
    ensures var s := Step(TWO_PAGES, Fixed(LAST_PAGE, 0x1000));
      MmapStep(s, 0, LAST_PAGE, 3, 0x20, 0, NoSuchFd).1 == Hang
  {
    HighIsFree(LAST_PAGE, 0x1000);
    HangsBetween(Step(TWO_PAGES, Fixed(LAST_PAGE, 0x1000)), TWO_PAGES.regions[0]);
  }

  /** Without it, the same request is refused: an address is found, but there is no room behind it. */
  lemma MmapHasNoRoom()
    ensures MmapStep(TWO_PAGES, 0, LAST_PAGE, 3, 0x20, 0, NoSuchFd).1 == Fail(ENOMEM)
  {
    TwoPagesInOrder();
    assert AlignUp(LAST_PAGE) == LAST_PAGE by { AlignUpIsLeast(LAST_PAGE, LAST_PAGE); }
    forall b: U64 ensures !RoomAt(TWO_PAGES, b, LAST_PAGE) {
      assert SearchStart(0) == 0x1000_0000;
    }
    MmapRefusal(TWO_PAGES, 0, LAST_PAGE, 3, 0x20, 0, NoSuchFd);
  }

  /** With the page below the last one mapped, the trap page and the interpreter go to address 0. */
  lemma TrapWrapsToZero()
    ensures var s := Step(TWO_PAGES, Fixed(HIGH, 0x1000));
      Agree(s) && TrapAddress(s.regions) == 0 && SharedObjectBase(s.regions) == 0
  {
    TwoPagesInOrder();
    HighIsFree(HIGH, 0x1000);
    StepAgree(TWO_PAGES, Fixed(HIGH, 0x1000));
    var s := Step(TWO_PAGES, Fixed(HIGH, 0x1000));
    assert s.regions == [TWO_PAGES.regions[0], Region(HIGH, 0x1000, Prot(true, true, false), "[mmap]")];
    assert s.regions[1..] == [Region(HIGH, 0x1000, Prot(true, true, false), "[mmap]")];
    assert HighestEnd(s.regions[1..]) == Some(LAST_PAGE);
    assert HighestEnd(s.regions) == Some(LAST_PAGE);
  }

  // ---- protections and snapshots

  lemma FirstPageProtected()
    ensures var r := MprotectStep(TWO_PAGES, 0x1_0000, 0x1000, 1);
      && r.0.regions == [Region(0x1_0000, 0x2000, Prot(true, false, false), "data")]
      && r.0.cells == ProtectCells(TWO_PAGES.cells, 0x1_0000, 0x1000, Prot(true, false, false))
  {
    TwoPagesInOrder();
    assert ProtFromFlags(1) == Prot(true, false, false);
    assert AlignDown(0x1_0000) == 0x1_0000 && AlignUp(0x1_1000) == 0x1_1000;
    assert CanEdit(TWO_PAGES.cells, 0x1_0000, 0x1000);
  }

  /** Making the first page read-only records the second one so as well. */
  lemma PartialProtectIsRecordedWhole()
    ensures var s := Step(TWO_PAGES, Mprotect(0x1_0000, 0x1000, 1));
      && Agree(s) && !AllProts(s)
      && Tag(s.regions, 0x1_1000) == Some((Prot(true, false, false), "data"))
      && 0x1_1000 in s.cells && s.cells[0x1_1000].prot == PROT_ALL
  {
    TwoPagesInOrder();
    FirstPageProtected();
    MapCellsAt(map[], 0x1_0000, 0x2000, PROT_ALL, 0x1_1000);
    StepAgree(TWO_PAGES, Mprotect(0x1_0000, 0x1000, 1));
    var s := MprotectStep(TWO_PAGES, 0x1_0000, 0x1000, 1).0;
    assert Covered(s.regions, 0x1_1000) && !ProtAt(s.regions, s.cells, 0x1_1000);
  }

  /** A guest that unmaps the second page keeps everything in agreement, and yet no snapshot of the
      two pages can be restored afterwards. */
  lemma HalfARegionIsNotRestorable()
    ensures var s := Step(TWO_PAGES, Munmap(0x1_1000, 0x1000));
      && Agree(s) && !Restorable(s, TWO_PAGES.regions)
  {
    TwoPagesInOrder();
    var s := Step(TWO_PAGES, Munmap(0x1_1000, 0x1000));
    StepAgree(TWO_PAGES, Munmap(0x1_1000, 0x1000));
    var r := TWO_PAGES.regions[0];
    assert AlignUp(0x1000) == 0x1000 && CanEdit(TWO_PAGES.cells, 0x1_1000, 0x1000);
    assert s.cells == UnmapCells(TWO_PAGES.cells, 0x1_1000, 0x1000);
    assert 0x1_0000 in TWO_PAGES.cells;
    assert 0x1_0000 in s.cells && 0x1_1000 !in s.cells && !Covered(s.regions, 0x1_1000);
    assert r in TWO_PAGES.regions && !Recorded(s.regions, r) && !Gone(s.cells, r);
  }

  lemma TwoPagesKept(s: Space)
    requires forall a :: 0x1_0000 <= a < 0x1_2000 ==> a in s.cells
    ensures NoneHalf(s.cells, TWO_PAGES.regions)
    ensures forall a :: Covered(TWO_PAGES.regions, a) <==> 0x1_0000 <= a < 0x1_2000
  {
    TwoPagesInOrder();
    assert forall r :: r in TWO_PAGES.regions ==> Whole(s.cells, r);
  }

  /** One mapping of the last page: list and engine agree, no region of the snapshot is half mapped, and
      every later restore fails on the unmapping of that page but for its last byte. */
  lemma LastPageDefeatsRestore()
    ensures var s := Step(TWO_PAGES, Fixed(LAST_PAGE, 0x1000));
      && Same(s) && NoneHalf(s.cells, TWO_PAGES.regions) && !Restorable(s, TWO_PAGES.regions)
  {
    TwoPagesInOrder();
    HighIsFree(LAST_PAGE, 0x1000);
    var s := Step(TWO_PAGES, Fixed(LAST_PAGE, 0x1000));
    MappedCovers(TWO_PAGES, LAST_PAGE, 0x1000, Prot(true, true, false), "[mmap]");
    forall a | 0x1_0000 <= a < 0x1_2000 ensures a in s.cells {
      MapCellsAt(TWO_PAGES.cells, LAST_PAGE, 0x1000, Prot(true, true, false), a);
    }
    TwoPagesKept(s);
  }

  const ASIDE: U64 := 0x4_0000

  /** A page aside, and then a MAP_FIXED over it and the unmapped page behind it. */
  lemma TornAside()
    ensures var s := Step(TWO_PAGES, Fixed(ASIDE, 0x1000));
      && s == Mapped(TWO_PAGES, ASIDE, 0x1000, Prot(true, true, false), "[mmap]") && Same(s)
      && Tears(s, Fixed(ASIDE, 0x2000)) && Step(s, Fixed(ASIDE, 0x2000)) == Cleared(s, ASIDE, 0x2000)
      && ASIDE in s.cells && ASIDE + 0x1000 !in s.cells
  {
    TwoPagesInOrder();
    AgreeIsSame(TWO_PAGES);
    FixedIsPlaced(TWO_PAGES, ASIDE, 0x1000);
    MappedSame(TWO_PAGES, ASIDE, 0x1000, Prot(true, true, false), "[mmap]");
    MapCellsAt(TWO_PAGES.cells, ASIDE, 0x1000, Prot(true, true, false), ASIDE);
    MapCellsAt(TWO_PAGES.cells, ASIDE, 0x1000, Prot(true, true, false), ASIDE + 0x1000);
    FixedTears(Step(TWO_PAGES, Fixed(ASIDE, 0x1000)), ASIDE, 0x2000);
  }

  lemma TornStaysRestorable(s: Space)
    requires s == Mapped(TWO_PAGES, ASIDE, 0x1000, Prot(true, true, false), "[mmap]") && Same(s)
    requires ASIDE in s.cells && ASIDE + 0x1000 !in s.cells
    ensures var t := Cleared(s, ASIDE, 0x2000);
      Tracked(t) && Restorable(t, TWO_PAGES.regions) && Lost(t, ASIDE)
  {
    var t := Cleared(s, ASIDE, 0x2000);
    TwoPagesInOrder();
    TwoPagesKept(TWO_PAGES);
    SameIsTracked(s);
    SameIsInv(s);
    RemoveRangeKeepsShaped(s.regions, ASIDE, 0x2000);
    RemoveRangeKeepsShape(s.regions, ASIDE, 0x2000);
    assert t.cells == s.cells;
    MappedCovers(TWO_PAGES, ASIDE, 0x1000, Prot(true, true, false), "[mmap]");
    forall a | a < MAX_U64 ensures Covered(t.regions, a) <==> 0x1_0000 <= a < 0x1_2000 {
      RemoveRangeTags(s.regions, ASIDE, 0x2000, a);
    }
  }

  lemma RunOfTwo(s: Space, c: Call, d: Call)
    ensures Run(s, [c, d]) == Step(Step(s, c), d)
  {
    assert [c, d][1..] == [d] && [d][1..] == [];
    assert Run(s, [c, d]) == Run(Step(s, c), [d]) == Run(Step(Step(s, c), d), []);
  }

  lemma LostStays(t: Space, snap: seq<Region>, a: int)
    requires Tracked(t) && AllSized(snap) && Lost(t, a)
    ensures a in Restored(t, snap)
  {
    RestoredAt(t, snap, a);
  }

  /** After that run a restore succeeds, and the page aside, which the snapshot does not have, is still
      mapped for the next input. */
  lemma TornPageOutlivesRestore()
    ensures var t := Run(TWO_PAGES, [Fixed(ASIDE, 0x1000), Fixed(ASIDE, 0x2000)]);
      && Restorable(t, TWO_PAGES.regions)
      && ASIDE in Restored(t, TWO_PAGES.regions) && !Covered(TWO_PAGES.regions, ASIDE)
  {
    var s := Step(TWO_PAGES, Fixed(ASIDE, 0x1000));
    RunOfTwo(TWO_PAGES, Fixed(ASIDE, 0x1000), Fixed(ASIDE, 0x2000));
    TornAside();
    TornStaysRestorable(s);
    TwoPagesInOrder();
    TwoPagesKept(TWO_PAGES);
    LostStays(Cleared(s, ASIDE, 0x2000), TWO_PAGES.regions, ASIDE);
  }

  /** A region that reaches the end of the address space loses its last byte with its first page. */
  lemma LastByteIsLost()
    ensures RemoveRange([Region(LAST_PAGE - 0x1000, 0x2000, PROT_ALL, "data")], LAST_PAGE - 0x1000, 0x1000)
         == [Region(LAST_PAGE, 0xFFF, PROT_ALL, "data")]
  {
    var r := Region(LAST_PAGE - 0x1000, 0x2000, PROT_ALL, "data");
    assert SatEnd(r) == MAX_U64;
    assert Pieces(r, LAST_PAGE - 0x1000, LAST_PAGE) == [Region(LAST_PAGE, 0xFFF, PROT_ALL, "data")];
    assert Removed([r], LAST_PAGE - 0x1000, LAST_PAGE)
        == Pieces(r, LAST_PAGE - 0x1000, LAST_PAGE) + Removed([], LAST_PAGE - 0x1000, LAST_PAGE);
  }

  /** Zeroing one byte past the end of the address space succeeds when it starts on a mapped page. */
  lemma ZeroingPassesTheEnd()
    ensures var cells := MapCells(map[], LAST_PAGE, 0x1000, PROT_ALL);
      && Elf.Bounded(cells) && Elf.OneTooMany(cells, LAST_PAGE, 0x1001)
      && !AllMapped(cells, LAST_PAGE, 0x1001)
  {
    var cells := MapCells(map[], LAST_PAGE, 0x1000, PROT_ALL);
    forall a ensures a in cells <==> LAST_PAGE <= a <= MAX_U64 {
      MapCellsAt(map[], LAST_PAGE, 0x1000, PROT_ALL, a);
    }
    assert MAX_U64 + 1 !in cells;
  }

  /** One heap page at 0x20000, with the break at its end. */
  const ONE_HEAP_PAGE: Space :=
    Space([Region(0x2_0000, 0x1000, PROT_ALL, HEAP)], MapCells(map[], 0x2_0000, 0x1000, PROT_ALL), 0x2_0000, 0x2_1000)

  /** The guest moves its break up two pages; the restored layout has one heap page again, and the
      break stays where the guest left it. */
  lemma BreakSurvivesRestore()
    ensures var s := Step(ONE_HEAP_PAGE, Brk(0x2_3000));
      && HeapOk(ONE_HEAP_PAGE) && HeapOk(s) && s.heapExit == 0x2_3000
      && !HeapOk(s.(regions := ONE_HEAP_PAGE.regions))
  {
    var empty := Space([], map[], 0, 0);
    LoadedHeap(empty, 0x2_0000, 0x1000);
    var loaded := Step(empty, LoaderMap(0x2_0000, 0x1000, PROT_ALL, HEAP));
    assert ONE_HEAP_PAGE == loaded.(heapStart := 0x2_0000, heapExit := 0x2_1000);
    HeapPageInOrder();
    AgreeIsInv(ONE_HEAP_PAGE);
    var end :| HeapTo(ONE_HEAP_PAGE, end);
    EndOfHeap(ONE_HEAP_PAGE, end, 0x2_1000);
    assert MappedHeapEnd(ONE_HEAP_PAGE.regions, 0x2_1000) == 0x2_1000;
    var s := Step(ONE_HEAP_PAGE, Brk(0x2_3000));
    var _ := BrkHeap(ONE_HEAP_PAGE, end, 0x2_3000);
    GrownBreak();
    RestoredHeap(s, ONE_HEAP_PAGE.regions, end);
  }

  lemma GrownBreak()
    ensures BrkStep(ONE_HEAP_PAGE, 0x2_3000).0.heapExit == 0x2_3000
    ensures BrkStep(ONE_HEAP_PAGE, 0x2_3000).0.heapStart == 0x2_0000
  {
    var q := Region(0x2_0000, 0x1000, PROT_ALL, HEAP);
    assert ONE_HEAP_PAGE.regions == [q];
    assert MappedHeapEnd([q], 0x2_1000) == 0x2_1000;
    assert HeapLimit([q], 0x2_1000) == MAX_U64;
    assert AlignUp(0x2_3000) == 0x2_3000 && AlignUp(0x2_1000) == 0x2_1000;
    assert CanMap(ONE_HEAP_PAGE.cells, 0x2_1000, 0x2000) by {
      forall a | 0x2_1000 <= a < 0x2_3000 ensures a !in ONE_HEAP_PAGE.cells {
        MapCellsAt(map[], 0x2_0000, 0x1000, PROT_ALL, a);
      }
    }
  }

  const TRADED := Region(0x2_0000, 0x3000, Prot(true, true, false), "[mmap]")

  lemma HeapTraded()
    ensures var s := Step(Step(ONE_HEAP_PAGE, Munmap(0x2_0000, 0x1000)), Fixed(0x2_0000, 0x3000));
      Agree(s) && s.regions == [TRADED] && s.heapStart == 0x2_0000 && s.heapExit == 0x2_1000
  {
    HeapPageGone();
    var gone := Step(ONE_HEAP_PAGE, Munmap(0x2_0000, 0x1000));
    AgreeIsSame(gone);
    FixedIsPlaced(gone, 0x2_0000, 0x3000);
    MappedAgree(gone, 0x2_0000, 0x3000, Prot(true, true, false), "[mmap]");
  }

  lemma StraddledBrkFaults(s: Space)
    requires Agree(s) && s.regions == [TRADED] && s.heapStart == 0x2_0000 && s.heapExit == 0x2_1000
    ensures BrkStep(s, 0x2_2000).1 == Fault
  {
    assert MappedHeapEnd([TRADED], 0x2_1000) == 0x2_1000;
    assert HeapLimit([TRADED], 0x2_1000) == MAX_U64;
    assert AlignUp(0x2_2000) == 0x2_2000 && AlignUp(0x2_1000) == 0x2_1000;
    assert TRADED in s.regions && Has(TRADED, 0x2_1000);
    assert 0x2_1000 in s.cells;
  }

  /** A guest that trades its heap page for a mapping across the break loses its heap, and growing the
      break then fails inside the emulator. */
  lemma BrkFaults()
    ensures var s := Step(Step(ONE_HEAP_PAGE, Munmap(0x2_0000, 0x1000)), Fixed(0x2_0000, 0x3000));
      Agree(s) && !HeapOk(s) && BrkStep(s, 0x2_2000).1 == Fault
  {
    HeapTraded();
    var s := Step(Step(ONE_HEAP_PAGE, Munmap(0x2_0000, 0x1000)), Fixed(0x2_0000, 0x3000));
    NoHeap(s);
    StraddledBrkFaults(s);
  }

  lemma NoHeap(s: Space)
    requires s.regions == [TRADED]
    ensures !HeapOk(s)
  {
    assert !IsHeap(TRADED);
    forall end | s.heapStart < end ensures !HeapTo(s, end) {
      assert !InHeap(s.regions, end - 1);
    }
  }

  lemma HeapPageInOrder()
    ensures Agree(ONE_HEAP_PAGE)
  {
    var empty := Space([], map[], 0, 0);
    MappedAgree(empty, 0x2_0000, 0x1000, PROT_ALL, HEAP);
    assert ONE_HEAP_PAGE.regions == Mapped(empty, 0x2_0000, 0x1000, PROT_ALL, HEAP).regions;
  }

  lemma HeapPageGone()
    ensures var gone := Step(ONE_HEAP_PAGE, Munmap(0x2_0000, 0x1000));
      && Agree(gone) && gone.regions == [] && gone.cells == map[]
      && gone.heapStart == 0x2_0000 && gone.heapExit == 0x2_1000
  {
    HeapPageInOrder();
    StepAgree(ONE_HEAP_PAGE, Munmap(0x2_0000, 0x1000));
    var gone, q := Step(ONE_HEAP_PAGE, Munmap(0x2_0000, 0x1000)), Region(0x2_0000, 0x1000, PROT_ALL, HEAP);
    forall a ensures a in ONE_HEAP_PAGE.cells <==> Has(q, a) {
      MapCellsAt(map[], 0x2_0000, 0x1000, PROT_ALL, a);
    }
    assert AlignUp(0x1000) == 0x1000 && CanEdit(ONE_HEAP_PAGE.cells, 0x2_0000, 0x1000);
    assert Removed([q], 0x2_0000, 0x2_1000) == Pieces(q, 0x2_0000, 0x2_1000) + Removed([], 0x2_0000, 0x2_1000);
    assert gone.regions == [];
    assert gone.cells == map[];
  }

  // ---- thread descriptors, standard input, stack

  const GDT: U64 := 0x3_0000

  /** A page of descriptors, all clear, with an automatic request stored in the first two. */
  function RequestInTable(d: Tls.UserDesc): Cells {
    WriteCells(MapCells(map[], GDT, 0x1000, PROT_ALL), GDT, Tls.Laid(d))
  }

  lemma SpoiledAtStart(cells: Cells, gdt: U64, d: Tls.UserDesc)
    requires Tls.TableMapped(cells, gdt) && Tls.AllOnes(cells, gdt) && Tls.Contents(d) != 3
    ensures var r := Tls.Install(cells, gdt, gdt, d, 6);
      r.1 == Ret(0) && Tls.TableMapped(r.0, gdt) && Tls.Entry(r.0, gdt, 0) != Tls.Entry(cells, gdt, 0)
  {
    var entry := Tls.InstallIs(cells, gdt, gdt, d, 6);
    Tls.WriteBackSpoils(cells, gdt, gdt, 6, entry, 0, 0);
  }

  lemma RequestAtStart(cells: Cells, gdt: U64, d: Tls.UserDesc)
    requires gdt != 0 && Tls.TableMapped(cells, gdt) && d == Tls.DescOf(ReadCells(cells, gdt, 16))
    requires d.entryNumber == Tls.AUTO && d.limit <= 0xF_FFFF && Tls.FirstFree(Tls.Slots(cells, gdt)) == Some(0)
    requires Tls.Contents(d) != 3
    ensures var (now, r) := Tls.ThreadAreaStep(cells, gdt, true, gdt);
      r == Ret(0) && Tls.TableMapped(now, gdt) && Tls.Entry(now, gdt, 0) != Tls.Entry(cells, gdt, 0)
  {
    Tls.FindFreeIsFirst(cells, gdt);
    Tls.RequestBytes(cells, gdt);
    Tls.AutoIsOnes(cells, gdt);
    assert Tls.ThreadAreaStep(cells, gdt, true, gdt) == Tls.Install(cells, gdt, gdt, d, 6);
    SpoiledAtStart(cells, gdt, d);
  }

  /** Any such call with a valid request succeeds and spoils a descriptor below the automatic slots. */
  lemma RequestSpoilsTable(d: Tls.UserDesc)
    requires d.entryNumber == Tls.AUTO && d.limit <= 0xF_FFFF && Tls.Contents(d) != 3
    ensures Tls.TableMapped(RequestInTable(d), GDT)
    ensures var (now, r) := Tls.ThreadAreaStep(RequestInTable(d), GDT, true, GDT);
      && r == Ret(0) && Tls.TableMapped(now, GDT)
      && Tls.Entry(now, GDT, 0) != Tls.Entry(RequestInTable(d), GDT, 0)
  {
    RequestTable(d);
    RequestAtStart(RequestInTable(d), GDT, d);
  }

  lemma RequestTable(d: Tls.UserDesc)
    ensures var cells := RequestInTable(d);
      && Tls.TableMapped(cells, GDT) && AllMapped(cells, GDT, 16)
      && Tls.DescOf(ReadCells(cells, GDT, 16)) == d
      && Tls.FirstFree(Tls.Slots(cells, GDT)) == Some(0)
  {
    var page := MapCells(map[], GDT, 0x1000, PROT_ALL);
    forall a | GDT <= a < GDT + 0x1000 ensures a in page && page[a].byte == 0 {
      MapCellsAt(map[], GDT, 0x1000, PROT_ALL, a);
    }
    var cells := RequestInTable(d);
    ReadAfterWrite(page, GDT, Tls.Laid(d));
    Tls.LaidRoundTrip(d);
    forall j | 0 <= j < 8 ensures Tls.Entry(cells, GDT, 6)[j] == 0 {
      Tls.EntryByte(cells, GDT, 6, j);
    }
    assert Tls.Entry(cells, GDT, 6) == Tls.ZERO_ENTRY;
  }

  /** A read into unmapped memory fails inside the emulator, and the next read answers 0: the bytes
      are gone. */
  lemma ReadLosesInput()
    ensures var bad, good := Stdin.Request(0x1000, 2, map[]), Stdin.Request(0x1_0000, 2, TWO_PAGES.cells);
      && Stdin.Outcomes(Stdin.Input([0x41, 0x42], 0), [bad, good]) == [Fault, Ret(0)]
      && Stdin.Received(Stdin.Input([0x41, 0x42], 0), [bad, good]) == []
  {
    var bad, good := Stdin.Request(0x1000, 2, map[]), Stdin.Request(0x1_0000, 2, TWO_PAGES.cells);
    var start, end := Stdin.Input([0x41, 0x42], 0), Stdin.Input([0x41, 0x42], 2);
    assert 0x1000 !in bad.cells;
    Stdin.FaultsExactly(start, bad);
    Stdin.OneTakes(start, bad);
    assert [bad, good][1..] == [good];
    Stdin.ExhaustedReadsNothing(end, [good]);
    assert Stdin.Outcomes(end, [good])[0] == Ret(0);
  }

  const WITH_NUL: seq<Byte> := [0x41, 0, 0x42]

  /** An argument with a NUL in it is cut short, and two arguments leave the stack pointer of a 64-bit
      guest misaligned. */
  lemma ArgumentsAreCut()
    ensures Stack.ReadBack([WITH_NUL]) == [[0x41]]
    ensures Stack.FinalSp(0x8000_0000, [[0x41], [0x42]], None, 8) % 16 == 8
  {
    var argv := [WITH_NUL];
    assert Bytes.UpToNul(WITH_NUL[1..]) == [];
    assert Bytes.UpToNul(argv[0]) == [0x41] + Bytes.UpToNul(WITH_NUL[1..]) == [0x41];
    assert Stack.ReadBack(argv[1..]) == [];
    assert Stack.ReadBack(argv) == [Bytes.UpToNul(argv[0])] + Stack.ReadBack(argv[1..]) == [[0x41]];
    assert Stack.FrameLength(2, None) == 11;
  }
}
