/** The region list of src/memory.rs as a value, and what `remove_range` does to it. */
module Regions {
  import opened Words

  datatype Prot = Prot(read: bool, write: bool, exec: bool)

  const PROT_ALL := Prot(true, true, true)

  datatype Region = Region(start: U64, size: U64, prot: Prot, info: string)

  function End(r: Region): int {
    r.start + r.size
  }

  /** The end as most of the code computes it, with `saturating_add`. It differs from End only for
      a region that reaches 2^64. */
  function SatEnd(r: Region): U64 {
    SatAdd(r.start, r.size)
  }

  predicate Has(r: Region, a: int) {
    r.start <= a < End(r)
  }

  ghost predicate Covered(rs: seq<Region>, a: int) {
    exists r :: r in rs && Has(r, a)
  }

  predicate Touches(r: Region, start: int, end: int) {
    start < End(r) && r.start < end
  }

  predicate Apart(r: Region, q: Region) {
    End(r) <= q.start || End(q) <= r.start
  }

  ghost predicate Disjoint(rs: seq<Region>) {
    forall i, j :: 0 <= i < j < |rs| ==> Apart(rs[i], rs[j])
  }

  /** Non-empty, starting on a page, inside the 64-bit address space. */
  predicate Sound(r: Region) {
    0 < r.size && Aligned(r.start) && End(r) <= MAX_U64 + 1
  }

  /** Sound, a whole number of pages, and short of the last page. */
  predicate Paged(r: Region) {
    0 < r.size && Aligned(r.start) && Aligned(r.size) && End(r) <= LAST_PAGE
  }

  /** Sound and a whole number of pages; the last page is allowed. */
  predicate Sized(r: Region) {
    0 < r.size && Aligned(r.start) && Aligned(r.size) && End(r) <= MAX_U64 + 1
  }

  ghost predicate AllSized(rs: seq<Region>) {
    forall r :: r in rs ==> Sized(r)
  }

  /** Starting on a page and ending on one or, as a removal can leave it, one byte short of 2^64. */
  predicate Shaped(r: Region) {
    0 < r.size && Aligned(r.start) && End(r) <= MAX_U64 + 1 && (Aligned(End(r)) || End(r) == MAX_U64)
  }

  ghost predicate AllShaped(rs: seq<Region>) {
    forall r :: r in rs ==> Shaped(r)
  }

  lemma SizedIsShaped(rs: seq<Region>)
    requires AllSized(rs)
    ensures AllShaped(rs)
  {
    forall r | r in rs ensures Shaped(r) {
      assert Sized(r);
      AlignedSums(r.start, r.size);
    }
  }

  ghost predicate AllSound(rs: seq<Region>) {
    forall r :: r in rs ==> Sound(r)
  }

  ghost predicate AllPaged(rs: seq<Region>) {
    forall r :: r in rs ==> Paged(r)
  }

  /** Protection and label of the first region that has the address. */
  function Tag(rs: seq<Region>, a: int): (t: Option<(Prot, string)>)
    ensures t.Some? <==> Covered(rs, a)
  {
    if rs == [] then None
    else if Has(rs[0], a) then Some((rs[0].prot, rs[0].info))
    else
      assert forall r :: r in rs <==> r == rs[0] || r in rs[1..];
      Tag(rs[1..], a)
  }

  lemma {:induction false} TagOfConcat(xs: seq<Region>, ys: seq<Region>, a: int)
    ensures Tag(xs + ys, a) == if Covered(xs, a) then Tag(xs, a) else Tag(ys, a)
  {
    if xs == [] {
      assert xs + ys == ys;
    } else {
      assert (xs + ys)[1..] == xs[1..] + ys;
      TagOfConcat(xs[1..], ys, a);
      assert Covered(xs, a) <==> Tag(xs, a).Some?;
      assert Covered(xs[1..], a) <==> Tag(xs[1..], a).Some?;
    }
  }

  /** In a disjoint list the tag of an address is that of any region that has it. */
  lemma {:induction false} TagOfMember(rs: seq<Region>, i: nat, a: int)
    requires Disjoint(rs) && i < |rs| && Has(rs[i], a)
    ensures Tag(rs, a) == Some((rs[i].prot, rs[i].info))
  {
    if i != 0 {
      assert Apart(rs[0], rs[i]);
      assert rs[1..][i - 1] == rs[i];
      forall j, k | 0 <= j < k < |rs[1..]| ensures Apart(rs[1..][j], rs[1..][k]) {
        assert Apart(rs[j + 1], rs[k + 1]);
      }
      TagOfMember(rs[1..], i - 1, a);
    }
  }

  lemma CoveredByAppend(rs: seq<Region>, q: Region, a: int)
    ensures Covered(rs + [q], a) <==> Covered(rs, a) || Has(q, a)
  {
    assert forall r :: r in rs + [q] <==> r in rs || r == q;
  }

  /** `region_for`. The end is an unchecked sum here, which is 0 for a region that reaches 2^64. */
  function RegionFor(rs: seq<Region>, addr: U64): Option<Region> {
    if rs == [] then None
    else if rs[0].start <= addr < WrapAdd(rs[0].start, rs[0].size) then Some(rs[0])
    else RegionFor(rs[1..], addr)
  }

  /** The lookup finds a region for an address exactly when one has it that stops short of 2^64, and
      in a list of such regions it is the one the address is recorded in. */
  lemma {:induction false} RegionForFinds(rs: seq<Region>, addr: U64)
    requires AllSound(rs)
    ensures RegionFor(rs, addr).Some? <==> exists r :: r in rs && Has(r, addr) && End(r) <= MAX_U64
    ensures RegionFor(rs, addr).Some? ==> RegionFor(rs, addr).value in rs && Has(RegionFor(rs, addr).value, addr)
    ensures RegionFor(rs, addr).Some? && (forall r :: r in rs ==> End(r) <= MAX_U64) ==>
      Tag(rs, addr) == Some((RegionFor(rs, addr).value.prot, RegionFor(rs, addr).value.info))
  {
    if rs != [] {
      RegionForFinds(rs[1..], addr);
      assert forall r :: r in rs <==> r == rs[0] || r in rs[1..];
      assert Sound(rs[0]);
      assert rs[0].start <= addr < WrapAdd(rs[0].start, rs[0].size) <==> Has(rs[0], addr) && End(rs[0]) <= MAX_U64;
    }
  }

  // ---- remove_range

  /** What one region leaves behind when [lo, hi) is removed. */
  function Pieces(r: Region, lo: U64, hi: U64): seq<Region> {
    if hi <= r.start || lo >= SatEnd(r) then [r]
    else
      (if lo > r.start then [r.(size := SatSub(lo, r.start))] else []) +
      (if hi < SatEnd(r) then [r.(start := hi, size := SatSub(SatEnd(r), hi))] else [])
  }

  function Removed(rs: seq<Region>, lo: U64, hi: U64): seq<Region> {
    if rs == [] then [] else Pieces(rs[0], lo, hi) + Removed(rs[1..], lo, hi)
  }

  lemma {:induction false} RemovedOfAppend(rs: seq<Region>, r: Region, lo: U64, hi: U64)
    ensures Removed(rs + [r], lo, hi) == Removed(rs, lo, hi) + Pieces(r, lo, hi)
  {
    if rs == [] {
      assert rs + [r] == [r] && Removed([], lo, hi) == [];
    } else {
      assert (rs + [r])[1..] == rs[1..] + [r];
      RemovedOfAppend(rs[1..], r, lo, hi);
    }
  }

  /** The list after `remove_range(addr, size)`. */
  function RemoveRange(rs: seq<Region>, addr: U64, size: U64): seq<Region> {
    if size == 0 then rs else Removed(rs, addr, SatAdd(addr, size))
  }

  lemma TagOfPieces(r: Region, lo: U64, hi: U64, a: int)
    requires a < MAX_U64 && lo <= hi
    ensures Tag(Pieces(r, lo, hi), a) == if lo <= a < hi then None else Tag([r], a)
  {
    if hi <= r.start || lo >= SatEnd(r) {
    } else {
      var left := r.(size := SatSub(lo, r.start));
      var right := r.(start := hi, size := SatSub(SatEnd(r), hi));
      TagOfConcat(if lo > r.start then [left] else [], if hi < SatEnd(r) then [right] else [], a);
    }
  }

  lemma {:induction false} TagOfRemoved(rs: seq<Region>, lo: U64, hi: U64, a: int)
    requires a < MAX_U64 && lo <= hi
    ensures Tag(Removed(rs, lo, hi), a) == if lo <= a < hi then None else Tag(rs, a)
  {
    if rs != [] {
      TagOfPieces(rs[0], lo, hi, a);
      TagOfRemoved(rs[1..], lo, hi, a);
      TagOfConcat(Pieces(rs[0], lo, hi), Removed(rs[1..], lo, hi), a);
      assert Covered(Pieces(rs[0], lo, hi), a) <==> Tag(Pieces(rs[0], lo, hi), a).Some?;
    }
  }

  /** For any list whatever, overlapping or not: exactly the addresses of the range are gone, every
      other address keeps its protection and label. The last address of all, which no saturated end
      can reach, has a lemma of its own. */
  lemma RemoveRangeTags(rs: seq<Region>, addr: U64, size: U64, a: int)
    requires a < MAX_U64
    ensures Tag(RemoveRange(rs, addr, size), a) == if addr <= a < addr + size then None else Tag(rs, a)
    ensures Covered(RemoveRange(rs, addr, size), a) <==> Covered(rs, a) && !(addr <= a < addr + size)
  {
    if size != 0 {
      TagOfRemoved(rs, addr, SatAdd(addr, size), a);
    }
    assert Tag(RemoveRange(rs, addr, size), a).Some? <==> Covered(RemoveRange(rs, addr, size), a);
    assert Tag(rs, a).Some? <==> Covered(rs, a);
  }

  /** The removal leaves the region as it is. */
  predicate Untouched(r: Region, lo: U64, hi: U64) {
    hi <= r.start || SatEnd(r) <= lo
  }

  /** Record of the last address in the first region that has it and is touched by neither removal. */
  function TopTag(rs: seq<Region>, lo: U64, hi: U64, lo': U64, hi': U64): Option<(Prot, string)> {
    if rs == [] then None
    else if Has(rs[0], MAX_U64) && Untouched(rs[0], lo, hi) && Untouched(rs[0], lo', hi') then
      Some((rs[0].prot, rs[0].info))
    else TopTag(rs[1..], lo, hi, lo', hi')
  }

  lemma TopOfPieces(r: Region, lo: U64, hi: U64)
    requires lo <= hi
    ensures Tag(Pieces(r, lo, hi), MAX_U64) ==
      if Untouched(r, lo, hi) && Has(r, MAX_U64) then Some((r.prot, r.info)) else None
    ensures !Untouched(r, lo, hi) ==> forall q :: q in Pieces(r, lo, hi) ==> !Has(q, MAX_U64)
  {
    if !Untouched(r, lo, hi) {
      forall q | q in Pieces(r, lo, hi) ensures !Has(q, MAX_U64) {
      }
      assert !Covered(Pieces(r, lo, hi), MAX_U64);
    }
  }

  lemma {:induction false} RemovedConcat(xs: seq<Region>, ys: seq<Region>, lo: U64, hi: U64)
    ensures Removed(xs + ys, lo, hi) == Removed(xs, lo, hi) + Removed(ys, lo, hi)
  {
    if xs == [] {
      assert xs + ys == ys;
    } else {
      assert (xs + ys)[1..] == xs[1..] + ys;
      RemovedConcat(xs[1..], ys, lo, hi);
    }
  }

  lemma NoTopStaysAway(rs: seq<Region>, lo: U64, hi: U64)
    requires lo <= hi && forall r :: r in rs ==> !Has(r, MAX_U64)
    ensures Tag(Removed(rs, lo, hi), MAX_U64) == None
  {
    if Covered(Removed(rs, lo, hi), MAX_U64) {
      var q :| q in Removed(rs, lo, hi) && Has(q, MAX_U64);
      var r := RemovedParent(rs, lo, hi, q);
      PiecesOfOne(r, lo, hi);
    }
  }

  lemma TopOfPiecesTwice(r: Region, lo: U64, hi: U64, lo': U64, hi': U64)
    requires lo <= hi && lo' <= hi'
    ensures Tag(Removed(Pieces(r, lo, hi), lo', hi'), MAX_U64) == TopTag([r], lo, hi, lo', hi')
  {
    TopOfPieces(r, lo, hi);
    TopOfPieces(r, lo', hi');
    if Untouched(r, lo, hi) {
      assert Removed([r], lo', hi') == Pieces(r, lo', hi') + Removed([], lo', hi');
      assert Pieces(r, lo', hi') + [] == Pieces(r, lo', hi');
    } else {
      NoTopStaysAway(Pieces(r, lo, hi), lo', hi');
    }
  }

  lemma {:induction false} TopTwice(rs: seq<Region>, lo: U64, hi: U64, lo': U64, hi': U64)
    requires lo <= hi && lo' <= hi'
    ensures Tag(Removed(Removed(rs, lo, hi), lo', hi'), MAX_U64) == TopTag(rs, lo, hi, lo', hi')
  {
    if rs != [] {
      var first, rest := Pieces(rs[0], lo, hi), Removed(rs[1..], lo, hi);
      TopTwice(rs[1..], lo, hi, lo', hi');
      TopOfPiecesTwice(rs[0], lo, hi, lo', hi');
      RemovedConcat(first, rest, lo', hi');
      TagOfConcat(Removed(first, lo', hi'), Removed(rest, lo', hi'), MAX_U64);
      assert Covered(Removed(first, lo', hi'), MAX_U64) <==> Tag(Removed(first, lo', hi'), MAX_U64).Some?;
    }
  }

  lemma {:induction false} TopTagSwaps(rs: seq<Region>, lo: U64, hi: U64, lo': U64, hi': U64)
    ensures TopTag(rs, lo, hi, lo', hi') == TopTag(rs, lo', hi', lo, hi)
  {
    if rs != [] {
      TopTagSwaps(rs[1..], lo, hi, lo', hi');
    }
  }

  /** Two removals commute on what is covered and on every surviving protection and label, up to and
      including the last address. */
  lemma RemoveRangeCommutes(rs: seq<Region>, addr: U64, size: U64, addr': U64, size': U64, a: int)
    requires a <= MAX_U64
    ensures Tag(RemoveRange(RemoveRange(rs, addr, size), addr', size'), a)
         == Tag(RemoveRange(RemoveRange(rs, addr', size'), addr, size), a)
  {
    if a < MAX_U64 {
      RemoveRangeTags(rs, addr, size, a);
      RemoveRangeTags(rs, addr', size', a);
      RemoveRangeTags(RemoveRange(rs, addr, size), addr', size', a);
      RemoveRangeTags(RemoveRange(rs, addr', size'), addr, size, a);
    } else if size != 0 && size' != 0 {
      var end, end' := SatAdd(addr, size), SatAdd(addr', size');
      TopTwice(rs, addr, end, addr', end');
      TopTwice(rs, addr', end', addr, end);
      TopTagSwaps(rs, addr, end, addr', end');
    }
  }

  lemma {:induction false} KeptMember(rs: seq<Region>, lo: U64, hi: U64, r: Region)
    requires r in rs && Pieces(r, lo, hi) == [r]
    ensures r in Removed(rs, lo, hi)
  {
    if rs[0] == r {
      assert r in Pieces(rs[0], lo, hi);
    } else {
      KeptMember(rs[1..], lo, hi, r);
    }
  }

  /** The last address is lost by exactly the regions the range meets, in the range or not. */
  lemma RemoveRangeTop(rs: seq<Region>, addr: U64, size: U64)
    requires size != 0
    ensures Covered(RemoveRange(rs, addr, size), MAX_U64) <==>
      exists r :: r in rs && Has(r, MAX_U64) && Untouched(r, addr, SatAdd(addr, size))
  {
    var hi := SatAdd(addr, size);
    if r :| r in rs && Has(r, MAX_U64) && Untouched(r, addr, hi) {
      KeptMember(rs, addr, hi, r);
    }
    if Covered(Removed(rs, addr, hi), MAX_U64) {
      var q :| q in Removed(rs, addr, hi) && Has(q, MAX_U64);
      var r := RemovedParent(rs, addr, hi, q);
      TopOfPieces(r, addr, hi);
      assert Has(r, MAX_U64) && Untouched(r, addr, hi);
    }
  }

  ghost predicate Inside(q: Region, r: Region) {
    r.start <= q.start && End(q) <= End(r) && q.prot == r.prot && q.info == r.info
  }

  /** Every surviving region is a piece of an old one. */
  lemma {:induction false} RemovedParent(rs: seq<Region>, lo: U64, hi: U64, q: Region) returns (r: Region)
    requires q in Removed(rs, lo, hi)
    ensures r in rs && q in Pieces(r, lo, hi) && Inside(q, r)
  {
    if q in Pieces(rs[0], lo, hi) {
      r := rs[0];
    } else {
      r := RemovedParent(rs[1..], lo, hi, q);
    }
  }

  ghost predicate AllApart(xs: seq<Region>, ys: seq<Region>) {
    forall x, y :: x in xs && y in ys ==> Apart(x, y)
  }

  lemma DisjointConcat(xs: seq<Region>, ys: seq<Region>)
    requires Disjoint(xs) && Disjoint(ys) && AllApart(xs, ys)
    ensures Disjoint(xs + ys)
  {
    var zs := xs + ys;
    forall i, j | 0 <= i < j < |zs| ensures Apart(zs[i], zs[j]) {
      if i < |xs| <= j {
        assert zs[i] in xs && zs[j] in ys;
      } else if |xs| <= i {
        assert zs[i] == ys[i - |xs|] && zs[j] == ys[j - |xs|];
      }
    }
  }

  lemma DisjointTail(rs: seq<Region>)
    requires Disjoint(rs) && rs != []
    ensures Disjoint(rs[1..]) && AllApart([rs[0]], rs[1..])
  {
    forall i, j | 0 <= i < j < |rs[1..]| ensures Apart(rs[1..][i], rs[1..][j]) {
      assert Apart(rs[i + 1], rs[j + 1]);
    }
    forall y | y in rs[1..] ensures Apart(rs[0], y) {
      var k :| 0 <= k < |rs[1..]| && rs[1..][k] == y;
      assert Apart(rs[0], rs[k + 1]);
    }
  }

  lemma PiecesOfOne(r: Region, lo: U64, hi: U64)
    requires lo <= hi
    ensures Disjoint(Pieces(r, lo, hi))
    ensures forall q :: q in Pieces(r, lo, hi) ==> Inside(q, r)
  {
  }

  lemma PartsStayApart(r: Region, rs: seq<Region>, lo: U64, hi: U64, x: Region, y: Region)
    requires AllApart([r], rs) && Inside(x, r) && y in Removed(rs, lo, hi)
    ensures Apart(x, y)
  {
    var p := RemovedParent(rs, lo, hi, y);
    assert r in [r] && Apart(r, p);
  }

  lemma RemovedStaysApart(r: Region, rs: seq<Region>, lo: U64, hi: U64)
    requires AllApart([r], rs) && lo <= hi
    ensures AllApart(Pieces(r, lo, hi), Removed(rs, lo, hi))
  {
    PiecesOfOne(r, lo, hi);
    var here, rest := Pieces(r, lo, hi), Removed(rs, lo, hi);
    forall x, y | x in here && y in rest ensures Apart(x, y) {
      PartsStayApart(r, rs, lo, hi, x, y);
    }
  }

  lemma {:induction false} RemovedDisjoint(rs: seq<Region>, lo: U64, hi: U64)
    requires Disjoint(rs) && lo <= hi
    ensures Disjoint(Removed(rs, lo, hi))
  {
    if rs != [] {
      DisjointTail(rs);
      PiecesOfOne(rs[0], lo, hi);
      RemovedDisjoint(rs[1..], lo, hi);
      RemovedStaysApart(rs[0], rs[1..], lo, hi);
      DisjointConcat(Pieces(rs[0], lo, hi), Removed(rs[1..], lo, hi));
    }
  }

  lemma PieceBounds(r: Region, addr: U64, size: U64, q: Region)
    requires Sound(r) && Aligned(addr) && 0 < size
    requires q in Pieces(r, addr, SatAdd(addr, size))
    ensures r.start <= q.start && End(q) <= End(r)
    ensures End(q) <= addr || addr + size <= q.start
  {
    var hi := SatAdd(addr, size);
    if hi <= r.start || addr >= SatEnd(r) {
      assert q == r;
    }
  }

  lemma PieceShape(r: Region, addr: U64, size: U64, q: Region)
    requires Sound(r) && Aligned(addr) && Aligned(size) && 0 < size
    requires q in Pieces(r, addr, SatAdd(addr, size))
    ensures Sound(q) && (Paged(r) ==> Paged(q))
  {
    var hi := SatAdd(addr, size);
    if q == r {
    } else if q == r.(size := SatSub(addr, r.start)) {
      AlignedSums(addr, r.start);
    } else {
      assert hi == addr + size && q.start == hi && End(q) == SatEnd(r);
      AlignedSums(addr, size);
      if Paged(r) {
        AlignedSums(r.start, r.size);
        AlignedSums(End(r), hi);
      }
    }
  }

  /** Removing whole pages keeps a disjoint list disjoint, keeps its regions non-empty and on pages,
      and never leaves a removed address covered, the last one included. */
  lemma RemoveRangeKeepsShape(rs: seq<Region>, addr: U64, size: U64)
    requires Disjoint(rs) && AllSound(rs) && Aligned(addr) && Aligned(size)
    ensures Disjoint(RemoveRange(rs, addr, size)) && AllSound(RemoveRange(rs, addr, size))
    ensures AllPaged(rs) ==> AllPaged(RemoveRange(rs, addr, size))
    ensures forall a :: Covered(RemoveRange(rs, addr, size), a) ==> Covered(rs, a) && !(addr <= a < addr + size)
  {
    if size != 0 {
      var hi := SatAdd(addr, size);
      RemovedDisjoint(rs, addr, hi);
      forall q | q in Removed(rs, addr, hi)
        ensures Sound(q) && (AllPaged(rs) ==> Paged(q))
        ensures forall a :: Has(q, a) ==> Covered(rs, a) && !(addr <= a < addr + size)
      {
        var r := RemovedParent(rs, addr, hi, q);
        PieceShape(r, addr, size, q);
        PieceBounds(r, addr, size, q);
      }
    }
  }

  /** On whole pages short of the last one the removal is exact at every address. */
  lemma RemoveRangeExact(rs: seq<Region>, addr: U64, size: U64)
    requires Disjoint(rs) && AllPaged(rs) && Aligned(addr) && Aligned(size)
    ensures Disjoint(RemoveRange(rs, addr, size)) && AllPaged(RemoveRange(rs, addr, size))
    ensures forall a :: Covered(RemoveRange(rs, addr, size), a) <==> Covered(rs, a) && !(addr <= a < addr + size)
  {
    RemoveRangeKeepsShape(rs, addr, size);
    forall a ensures Covered(RemoveRange(rs, addr, size), a) <==> Covered(rs, a) && !(addr <= a < addr + size) {
      if a < MAX_U64 {
        RemoveRangeTags(rs, addr, size, a);
      }
    }
  }

  /** The removal meets a region that reaches 2^64, and is to leave the rest of it. */
  ghost predicate Shaves(rs: seq<Region>, start: U64, size: U64) {
    && 0 < size && start + size <= LAST_PAGE
    && exists r :: r in rs && End(r) == MAX_U64 + 1 && r.start < start + size
  }

  lemma SizedPiece(r: Region, addr: U64, size: U64, q: Region)
    requires Sized(r) && Aligned(addr) && Aligned(size) && 0 < size && q in Pieces(r, addr, SatAdd(addr, size))
    requires End(r) == MAX_U64 + 1 && addr + size <= LAST_PAGE ==> addr + size <= r.start
    ensures Sized(q)
  {
    AlignedSums(addr, size);
    AlignedSums(addr, r.start);
    AlignedSums(r.start, r.size);
    if !Untouched(r, addr, SatAdd(addr, size)) && addr + size < End(r) {
      AlignedSums(End(r), addr + size);
    }
  }

  lemma RemoveRangeKeepsSizes(rs: seq<Region>, addr: U64, size: U64)
    requires AllSized(rs) && Aligned(addr) && Aligned(size) && !Shaves(rs, addr, size)
    ensures AllSized(RemoveRange(rs, addr, size))
  {
    if size != 0 {
      forall q | q in RemoveRange(rs, addr, size) ensures Sized(q) {
        var r := RemovedParent(rs, addr, SatAdd(addr, size), q);
        SizedPiece(r, addr, size, q);
      }
    }
  }

  lemma PageBelowTop(n: int)
    requires Aligned(n) && n <= MAX_U64
    ensures n <= LAST_PAGE
  {
  }

  lemma TopStays(rs: seq<Region>, addr: U64, size: U64)
    requires AllSized(rs) && Aligned(addr) && Aligned(size) && !Shaves(rs, addr, size)
    requires Covered(rs, MAX_U64) && !(addr <= MAX_U64 < addr + size)
    ensures Covered(RemoveRange(rs, addr, size), MAX_U64)
  {
    if size != 0 {
      AlignedSums(addr, size);
      PageBelowTop(addr + size);
      RemoveRangeTop(rs, addr, size);
      var r :| r in rs && Has(r, MAX_U64);
      assert Sized(r) && End(r) == MAX_U64 + 1;
      assert addr + size <= LAST_PAGE;
      assert Untouched(r, addr, SatAdd(addr, size));
    }
  }

  /** Removing whole pages from whole pages is exact, the last page included, unless it shaves a region
      that reaches 2^64. */
  lemma RemoveRangeSized(rs: seq<Region>, addr: U64, size: U64)
    requires Disjoint(rs) && AllSized(rs) && Aligned(addr) && Aligned(size) && !Shaves(rs, addr, size)
    ensures Disjoint(RemoveRange(rs, addr, size)) && AllSized(RemoveRange(rs, addr, size))
    ensures forall a :: Covered(RemoveRange(rs, addr, size), a) <==> Covered(rs, a) && !(addr <= a < addr + size)
  {
    RemoveRangeKeepsShape(rs, addr, size);
    RemoveRangeKeepsSizes(rs, addr, size);
    forall a | Covered(rs, a) && !(addr <= a < addr + size) ensures Covered(RemoveRange(rs, addr, size), a) {
      if a < MAX_U64 {
        RemoveRangeTags(rs, addr, size, a);
      } else {
        var r :| r in rs && Has(r, a);
        assert Sized(r);
        TopStays(rs, addr, size);
      }
    }
  }

  /** If it does, the last address is mapped and no longer on record. */
  lemma ShavingLosesTop(rs: seq<Region>, addr: U64, size: U64)
    requires Disjoint(rs) && AllSized(rs) && Shaves(rs, addr, size)
    ensures Covered(rs, MAX_U64) && !Covered(RemoveRange(rs, addr, size), MAX_U64)
  {
    RemoveRangeTop(rs, addr, size);
    var r :| r in rs && End(r) == MAX_U64 + 1 && r.start < addr + size;
    assert Has(r, MAX_U64);
    forall q | q in rs && Has(q, MAX_U64) ensures !Untouched(q, addr, SatAdd(addr, size)) {
      var i :| 0 <= i < |rs| && rs[i] == r;
      var j :| 0 <= j < |rs| && rs[j] == q;
      assert !(i < j) && !(j < i);
    }
  }

  lemma ShapedPiece(r: Region, addr: U64, size: U64, q: Region)
    requires Shaped(r) && Aligned(addr) && Aligned(size) && 0 < size && q in Pieces(r, addr, SatAdd(addr, size))
    ensures Shaped(q)
  {
    AlignedSums(addr, size);
    if q != r && q.start == r.start {
      assert End(q) == addr;
    }
  }

  /** Removing whole pages keeps every region in this shape, whatever it meets. */
  lemma RemoveRangeKeepsShaped(rs: seq<Region>, addr: U64, size: U64)
    requires AllShaped(rs) && Aligned(addr) && Aligned(size)
    ensures AllShaped(RemoveRange(rs, addr, size))
  {
    if size != 0 {
      forall q | q in RemoveRange(rs, addr, size) ensures Shaped(q) {
        var r := RemovedParent(rs, addr, SatAdd(addr, size), q);
        ShapedPiece(r, addr, size, q);
      }
    }
  }

  /** Such a region has the start of the last page exactly when it has the last byte but one. */
  lemma ShapedAtTop(r: Region)
    requires Shaped(r)
    ensures Has(r, LAST_PAGE) <==> Has(r, MAX_U64 - 1)
    ensures Has(r, LAST_PAGE) <==> SatEnd(r) == MAX_U64
  {
    if r.start <= MAX_U64 {
      PageBelowTop(r.start);
    }
    if Aligned(End(r)) && End(r) <= MAX_U64 {
      PageBelowTop(End(r));
    }
  }

  lemma ShapedTop(rs: seq<Region>)
    requires AllShaped(rs)
    ensures Covered(rs, LAST_PAGE) <==> Covered(rs, MAX_U64 - 1)
  {
    forall r | r in rs ensures Has(r, LAST_PAGE) <==> Has(r, MAX_U64 - 1) {
      ShapedAtTop(r);
    }
  }
}
