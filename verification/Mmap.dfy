/** The first-fit search of `next_mmap_addr` (src/os/syscall/memory.rs). */
module Mmap {
  import opened Words
  import opened Regions

  const GUARD_GAP: U64 := 0x1000_0000

  /** The overlap test of the search loop. */
  predicate Meets(r: Region, candidate: U64, len: U64) {
    candidate < SatEnd(r) && SatAdd(candidate, len) > r.start
  }

  predicate Free(rs: seq<Region>, candidate: U64, len: U64) {
    forall r :: r in rs ==> !Meets(r, candidate, len)
  }

  /** The plain search: try every page from `from` on. */
  ghost function Scan(rs: seq<Region>, from: int, len: U64): (found: Option<U64>)
    requires 0 <= from && Aligned(from)
    ensures found.Some? ==> from <= found.value && Aligned(found.value) && Free(rs, found.value, len)
    ensures forall c: U64 :: from <= c && Aligned(c) && Free(rs, c, len) ==> found.Some? && found.value <= c
    decreases MAX_U64 + 1 - from
  {
    if from > MAX_U64 then None
    else if Free(rs, from, len) then Some(from)
    else Scan(rs, from + 0x1000, len)
  }

  /** A page that meets no region is past the end of any region met below it. */
  lemma FreeIsPast(rs: seq<Region>, from: U64, r: Region, len: U64, c: U64)
    requires r in rs && Meets(r, from, len) && from <= c && Aligned(c) && Free(rs, c, len)
    ensures SatEnd(r) <= LAST_PAGE && AlignUp(SatEnd(r)) <= c
  {
    assert !Meets(r, c, len);
    AlignUpIsLeast(SatEnd(r), c);
  }

  /** A page on which the region is met can be skipped, and so can all pages below its end. */
  lemma ScanSkips(rs: seq<Region>, from: U64, r: Region, len: U64)
    requires Aligned(from) && r in rs && Meets(r, from, len)
    ensures SatEnd(r) <= LAST_PAGE ==> AlignUp(SatEnd(r)) > from
    ensures SatEnd(r) <= LAST_PAGE ==> Scan(rs, from, len) == Scan(rs, AlignUp(SatEnd(r)), len)
    ensures SatEnd(r) > LAST_PAGE ==> AlignUp(SatEnd(r)) == 0 && Scan(rs, from, len) == None
  {
    var found, beyond := Scan(rs, from, len), Scan(rs, AlignUp(SatEnd(r)), len);
    if found.Some? {
      FreeIsPast(rs, from, r, len, found.value);
      assert beyond.Some? && beyond.value <= found.value;
    }
  }

  function SearchStart(heapExit: U64): U64 {
    AlignUp(SatAdd(heapExit, GUARD_GAP))
  }

  /** What the search returns: the least free page from the start of the search on or, because the
      candidate wraps to 0 past the last page, the least free page of all. None: it never returns. */
  ghost function NextMmapAddr(rs: seq<Region>, heapExit: U64, len: U64): Option<U64> {
    var above := Scan(rs, SearchStart(heapExit), len);
    if above.Some? then above else Scan(rs, 0, len)
  }

  /** There is a page-aligned address at which the loop would stop. */
  ghost predicate SomeFree(rs: seq<Region>, len: U64) {
    exists c: U64 :: Aligned(c) && Free(rs, c, len)
  }

  lemma SearchFindsExactly(rs: seq<Region>, heapExit: U64, len: U64)
    ensures NextMmapAddr(rs, heapExit, len).Some? <==> SomeFree(rs, len)
  {
    if c: U64 :| Aligned(c) && Free(rs, c, len) {
      assert Scan(rs, 0, len).Some?;
    }
    if NextMmapAddr(rs, heapExit, len).Some? {
      assert Free(rs, NextMmapAddr(rs, heapExit, len).value, len);
    }
  }

  /** One turn of the loop that does not return. */
  function Jump(rs: seq<Region>, candidate: U64, len: U64): (next: Option<U64>)
    ensures next == None <==> Free(rs, candidate, len)
    ensures next.Some? ==> Aligned(next.value)
  {
    if rs == [] then None
    else if Meets(rs[0], candidate, len) then Some(AlignUp(SatEnd(rs[0])))
    else
      assert forall r :: r in rs <==> r == rs[0] || r in rs[1..];
      Jump(rs[1..], candidate, len)
  }

  /** The candidate after n turns, None once the loop has returned. */
  function Jumps(rs: seq<Region>, candidate: U64, len: U64, n: nat): Option<U64> {
    if n == 0 then Some(candidate)
    else match Jumps(rs, candidate, len, n - 1)
      case None => None
      case Some(c) => Jump(rs, c, len)
  }

  lemma {:induction false} JumpGoesPast(rs: seq<Region>, candidate: U64, len: U64, i: nat)
    requires i < |rs| && Meets(rs[i], candidate, len)
    requires forall k :: 0 <= k < i ==> !Meets(rs[k], candidate, len)
    ensures Jump(rs, candidate, len) == Some(AlignUp(SatEnd(rs[i])))
  {
    if i != 0 {
      assert !Meets(rs[0], candidate, len);
      JumpGoesPast(rs[1..], candidate, len, i - 1);
    }
  }

  /** After some turns from `start`: until the wrap nothing from the start on has been missed, after it
      nothing was to be found there and nothing has been missed from 0 on. */
  ghost predicate Searching(rs: seq<Region>, start: U64, len: U64, candidate: U64, wrapped: bool, turns: nat) {
    && Aligned(start) && Aligned(candidate)
    && Jumps(rs, start, len, turns) == Some(candidate)
    && (if wrapped then Scan(rs, start, len) == None && Scan(rs, candidate, len) == Scan(rs, 0, len)
        else Scan(rs, candidate, len) == Scan(rs, start, len))
  }

  /** How many regions of the list end above the candidate. */
  function EndingAbove(rs: seq<Region>, candidate: U64): (n: nat)
    ensures n <= |rs|
  {
    if rs == [] then 0
    else (if SatEnd(rs[0]) > candidate then 1 else 0) + EndingAbove(rs[1..], candidate)
  }

  lemma {:induction false} FewerAbove(rs: seq<Region>, candidate: U64, next: U64)
    requires candidate <= next
    ensures EndingAbove(rs, next) <= EndingAbove(rs, candidate)
    ensures forall r :: r in rs && candidate < SatEnd(r) <= next ==> EndingAbove(rs, next) < EndingAbove(rs, candidate)
  {
    if rs != [] {
      FewerAbove(rs[1..], candidate, next);
      assert forall r :: r in rs <==> r == rs[0] || r in rs[1..];
    }
  }

  ghost predicate NoneAtTop(rs: seq<Region>) {
    forall r :: r in rs ==> SatEnd(r) <= LAST_PAGE
  }

  /** Before the wrap each turn has passed a region for good; a wrap, which takes a region in the last
      page, starts the count once more. */
  ghost predicate TurnsBounded(rs: seq<Region>, candidate: U64, wrapped: bool, turns: nat) {
    && turns + EndingAbove(rs, candidate) <= (if wrapped then 2 * |rs| else |rs|)
    && (wrapped ==> !NoneAtTop(rs))
  }

  lemma SearchTurn(rs: seq<Region>, start: U64, len: U64, candidate: U64, wrapped: bool, turns: nat, i: nat)
    requires Searching(rs, start, len, candidate, wrapped, turns) && SomeFree(rs, len)
    requires i < |rs| && IsFirstMet(rs, candidate, len, i)
    ensures Searching(rs, start, len, AlignUp(SatEnd(rs[i])), wrapped || SatEnd(rs[i]) > LAST_PAGE, turns + 1)
    ensures wrapped ==> SatEnd(rs[i]) <= LAST_PAGE
  {
    JumpGoesPast(rs, candidate, len, i);
    ScanSkips(rs, candidate, rs[i], len);
    SearchFindsExactly(rs, 0, len);
  }

  lemma TurnCounts(rs: seq<Region>, len: U64, candidate: U64, wrapped: bool, turns: nat, i: nat)
    requires TurnsBounded(rs, candidate, wrapped, turns)
    requires i < |rs| && Meets(rs[i], candidate, len) && (wrapped ==> SatEnd(rs[i]) <= LAST_PAGE)
    ensures TurnsBounded(rs, AlignUp(SatEnd(rs[i])), wrapped || SatEnd(rs[i]) > LAST_PAGE, turns + 1)
  {
    assert rs[i] in rs && candidate < SatEnd(rs[i]);
    FewerAbove(rs, candidate, SatEnd(rs[i]));
    if SatEnd(rs[i]) <= LAST_PAGE {
      FewerAbove(rs, candidate, AlignUp(SatEnd(rs[i])));
    }
  }

  ghost predicate MidSearch(rs: seq<Region>, start: U64, len: U64, candidate: U64, wrapped: bool, turns: nat) {
    Searching(rs, start, len, candidate, wrapped, turns) && TurnsBounded(rs, candidate, wrapped, turns)
  }

  lemma SearchStarts(rs: seq<Region>, heapExit: U64, len: U64)
    ensures MidSearch(rs, SearchStart(heapExit), len, SearchStart(heapExit), false, 0)
  {
  }

  lemma NextTurn(rs: seq<Region>, start: U64, len: U64, candidate: U64, wrapped: bool, turns: nat, i: nat)
    returns (wrapped': bool)
    requires MidSearch(rs, start, len, candidate, wrapped, turns) && SomeFree(rs, len)
    requires i < |rs| && IsFirstMet(rs, candidate, len, i)
    ensures MidSearch(rs, start, len, AlignUp(SatEnd(rs[i])), wrapped', turns + 1)
    ensures turns < 2 * |rs|
  {
    wrapped' := wrapped || SatEnd(rs[i]) > LAST_PAGE;
    SearchTurn(rs, start, len, candidate, wrapped, turns, i);
    TurnCounts(rs, len, candidate, wrapped, turns, i);
  }

  lemma SearchStops(rs: seq<Region>, heapExit: U64, len: U64, candidate: U64, wrapped: bool, turns: nat)
    requires MidSearch(rs, SearchStart(heapExit), len, candidate, wrapped, turns)
    requires IsFirstMet(rs, candidate, len, |rs|)
    ensures Some(candidate) == NextMmapAddr(rs, heapExit, len)
    ensures Jumps(rs, SearchStart(heapExit), len, turns) == Some(candidate)
    ensures Jumps(rs, SearchStart(heapExit), len, turns + 1) == None
    ensures turns <= 2 * |rs| && (NoneAtTop(rs) ==> turns <= |rs|)
  {
    assert Free(rs, candidate, len);
    assert Scan(rs, candidate, len) == Some(candidate);
  }

  /** The first region in list order that the candidate meets; past the list when it meets none. */
  predicate IsFirstMet(rs: seq<Region>, candidate: U64, len: U64, i: nat) {
    && i <= |rs| && (i < |rs| ==> Meets(rs[i], candidate, len))
    && forall k :: 0 <= k < i ==> !Meets(rs[k], candidate, len)
  }

  method FirstMet(rs: seq<Region>, candidate: U64, len: U64) returns (i: nat)
    ensures IsFirstMet(rs, candidate, len, i)
  {
    i := 0;
    while i < |rs| && !Meets(rs[i], candidate, len)
      invariant i <= |rs|
      invariant forall k :: 0 <= k < i ==> !Meets(rs[k], candidate, len)
    {
      i := i + 1;
    }
  }

  /** The search loop. The candidate jumps to the end of whichever region it meets first in list
      order; the jumps only ever grow, but for at most one wrap to 0, so that it turns at most once for
      each region, or twice with a region in the last page. */
  method Search(rs: seq<Region>, heapExit: U64, len: U64) returns (candidate: U64, ghost turns: nat)
    requires SomeFree(rs, len)
    ensures Some(candidate) == NextMmapAddr(rs, heapExit, len)
    ensures Jumps(rs, SearchStart(heapExit), len, turns) == Some(candidate)
    ensures Jumps(rs, SearchStart(heapExit), len, turns + 1) == None
    ensures turns <= 2 * |rs| && (NoneAtTop(rs) ==> turns <= |rs|)
  {
    candidate, turns := SearchStart(heapExit), 0;
    ghost var wrapped := false;
    SearchStarts(rs, heapExit, len);
    while true
      invariant MidSearch(rs, SearchStart(heapExit), len, candidate, wrapped, turns)
      decreases 2 * |rs| - turns
    {
      var i := FirstMet(rs, candidate, len);
      if i == |rs| {
        SearchStops(rs, heapExit, len, candidate, wrapped, turns);
        return;
      }
      wrapped := NextTurn(rs, SearchStart(heapExit), len, candidate, wrapped, turns, i);
      candidate, turns := AlignUp(SatEnd(rs[i])), turns + 1;
    }
  }

  lemma {:induction false} JumpsStayTaken(rs: seq<Region>, candidate: U64, len: U64, n: nat)
    requires Aligned(candidate)
    requires !SomeFree(rs, len)
    ensures Jumps(rs, candidate, len, n).Some? && Aligned(Jumps(rs, candidate, len, n).value)
  {
    if n != 0 {
      JumpsStayTaken(rs, candidate, len, n - 1);
    }
  }

  /** The precondition of Search is exact: without a free page the loop turns for ever. */
  lemma SearchHangs(rs: seq<Region>, heapExit: U64, len: U64, n: nat)
    requires !SomeFree(rs, len)
    ensures Jumps(rs, SearchStart(heapExit), len, n).Some?
  {
    JumpsStayTaken(rs, SearchStart(heapExit), len, n);
  }

  /** The answer depends on which regions there are, not on their order or multiplicity. */
  lemma SearchIgnoresOrder(rs: seq<Region>, rs': seq<Region>, heapExit: U64, len: U64)
    requires forall r :: r in rs <==> r in rs'
    ensures NextMmapAddr(rs, heapExit, len) == NextMmapAddr(rs', heapExit, len)
  {
    assert forall c: U64 :: Free(rs, c, len) <==> Free(rs', c, len);
    forall from: int | 0 <= from && Aligned(from) ensures Scan(rs, from, len) == Scan(rs', from, len) {
      ScanIgnoresOrder(rs, rs', from, len);
    }
  }

  lemma ScanIgnoresOrder(rs: seq<Region>, rs': seq<Region>, from: int, len: U64)
    requires 0 <= from && Aligned(from)
    requires forall r :: r in rs <==> r in rs'
    ensures Scan(rs, from, len) == Scan(rs', from, len)
  {
    var one, two := Scan(rs, from, len), Scan(rs', from, len);
    if one.Some? {
      assert Free(rs', one.value, len);
    }
    if two.Some? {
      assert Free(rs, two.value, len);
    }
  }

  /** No region has an address of [start, start + len), nor any part of a region lies in it. */
  ghost predicate ClearOf(rs: seq<Region>, start: int, len: int) {
    forall r :: r in rs ==> End(r) <= start || start + len <= r.start
  }

  /** The search starts 256 MiB above the break, or at 0 if that is in the last page or past it. */
  lemma SearchStartIs(heapExit: U64, b: U64)
    requires b % 0x1000 == 0
    ensures var from := heapExit as int + 0x1000_0000;
      SearchStart(heapExit) <= b <==> (from <= 0xFFFF_FFFF_FFFF_F000 ==> from <= b)
  {
    AlignUpIsLeast(SatAdd(heapExit, GUARD_GAP), b);
  }

  /** While no region reaches the last page the search always returns, with the least page-aligned
      address from 256 MiB above the break on whose range meets no region. */
  lemma SearchSucceeds(rs: seq<Region>, heapExit: U64, len: U64)
    requires AllPaged(rs)
    ensures NextMmapAddr(rs, heapExit, len).Some?
    ensures var c, from := NextMmapAddr(rs, heapExit, len).value, heapExit as int + 0x1000_0000;
      && c % 0x1000 == 0 && (from <= 0xFFFF_FFFF_FFFF_F000 ==> from <= c) && ClearOf(rs, c, len)
      && forall b: U64 ::
           b % 0x1000 == 0 && (from <= 0xFFFF_FFFF_FFFF_F000 ==> from <= b) && ClearOf(rs, b, len) ==> c <= b
  {
    assert forall r :: r in rs ==> SatEnd(r) == End(r) <= LAST_PAGE;
    assert Free(rs, LAST_PAGE, len);
    var c := NextMmapAddr(rs, heapExit, len).value;
    SearchStartIs(heapExit, c);
    forall r | r in rs ensures End(r) <= c || c + len <= r.start {
      assert !Meets(r, c, len);
    }
    forall b: U64 | b % 0x1000 == 0 && SearchStart(heapExit) <= b && ClearOf(rs, b, len) ensures c <= b {
      assert Free(rs, b, len);
    }
    forall b: U64 | b % 0x1000 == 0
      ensures SearchStart(heapExit) <= b <==>
        (heapExit as int + 0x1000_0000 <= 0xFFFF_FFFF_FFFF_F000 ==> heapExit as int + 0x1000_0000 <= b)
    {
      SearchStartIs(heapExit, b);
    }
  }
}
