/** How src/loader/elf.rs cuts a segment into labelled regions: a run-length encoding of the labels
    of its pages. */
module Sections {
  import opened Words
  import opened Regions
  import opened Engine
  import opened Emulator
  import opened AddressSpace

  datatype SectionSpan = SectionSpan(start: U64, end: U64, name: string)

  /** Bytes of the page the section has. */
  function Overlap(pageStart: U64, pageEnd: U64, section: SectionSpan): U64 {
    if section.end <= pageStart || section.start >= pageEnd then 0
    else
      SatSub(if pageEnd < section.end then pageEnd else section.end,
             if pageStart > section.start then pageStart else section.start)
  }

  /** The addresses of [from, end) that are the section's, counted one by one. */
  ghost function Common(from: int, end: int, section: SectionSpan): nat
    decreases end - from
  {
    if from >= end then 0
    else (if section.start <= from < section.end then 1 else 0) + Common(from + 1, end, section)
  }

  lemma {:induction false} CommonIs(from: int, end: int, section: SectionSpan)
    ensures var lo := if from > section.start then from else section.start;
      var hi := if end < section.end then end else section.end;
      Common(from, end, section) == if lo < hi then hi - lo else 0
    decreases end - from
  {
    if from < end {
      CommonIs(from + 1, end, section);
    }
  }

  lemma OverlapCounts(pageStart: U64, pageEnd: U64, section: SectionSpan)
    ensures Overlap(pageStart, pageEnd, section) == Common(pageStart, pageEnd, section)
  {
    CommonIs(pageStart, pageEnd, section);
  }

  /** The first section of greatest overlap with the page, if any overlaps it. */
  ghost predicate IsBest(pageStart: U64, pageEnd: U64, sections: seq<SectionSpan>, best: Option<nat>) {
    match best
    case None => forall j :: 0 <= j < |sections| ==> Overlap(pageStart, pageEnd, sections[j]) == 0
    case Some(k) =>
      && k < |sections| && Overlap(pageStart, pageEnd, sections[k]) > 0
      && (forall j :: 0 <= j < |sections| ==>
            Overlap(pageStart, pageEnd, sections[j]) <= Overlap(pageStart, pageEnd, sections[k]))
      && (forall j :: 0 <= j < k ==>
            Overlap(pageStart, pageEnd, sections[j]) < Overlap(pageStart, pageEnd, sections[k]))
  }

  ghost function Best(pageStart: U64, pageEnd: U64, sections: seq<SectionSpan>): (best: Option<nat>)
    ensures IsBest(pageStart, pageEnd, sections, best)
  {
    if sections == [] then None
    else
      var last := |sections| - 1;
      var init := sections[..last];
      assert sections == init + [sections[last]];
      match Best(pageStart, pageEnd, init)
      case None => if Overlap(pageStart, pageEnd, sections[last]) > 0 then Some(last) else None
      case Some(k) =>
        if Overlap(pageStart, pageEnd, sections[last]) > Overlap(pageStart, pageEnd, sections[k]) then Some(last)
        else Some(k)
  }

  /** There is only one such section, so the label does not depend on how it was looked for. */
  lemma BestIsUnique(pageStart: U64, pageEnd: U64, sections: seq<SectionSpan>, best: Option<nat>)
    requires IsBest(pageStart, pageEnd, sections, best)
    ensures best == Best(pageStart, pageEnd, sections)
  {
  }

  ghost function SectionName(pageStart: U64, pageEnd: U64, sections: seq<SectionSpan>): string {
    match Best(pageStart, pageEnd, sections)
    case None => "[segment]"
    case Some(k) => "[" + sections[k].name + "]"
  }

  lemma BestOfAppend(pageStart: U64, pageEnd: U64, sections: seq<SectionSpan>, s: SectionSpan, best: Option<nat>)
    requires IsBest(pageStart, pageEnd, sections, best)
    ensures var high := if best.Some? then Overlap(pageStart, pageEnd, sections[best.value]) else 0;
      IsBest(pageStart, pageEnd, sections + [s],
             if Overlap(pageStart, pageEnd, s) > high then Some(|sections|) else best)
  {
  }

  method SectionNameForPage(pageStart: U64, pageEnd: U64, sections: seq<SectionSpan>) returns (name: string)
    ensures name == SectionName(pageStart, pageEnd, sections)
  {
    var bestName := "segment";
    var bestOverlap := 0;
    ghost var best: Option<nat> := None;
    for i := 0 to |sections|
      invariant IsBest(pageStart, pageEnd, sections[..i], best)
      invariant bestOverlap == if best.Some? then Overlap(pageStart, pageEnd, sections[best.value]) else 0
      invariant bestName == if best.Some? then sections[best.value].name else "segment"
    {
      var section := sections[i];
      BestOfAppend(pageStart, pageEnd, sections[..i], section, best);
      assert sections[..i + 1] == sections[..i] + [section];
      if section.end <= pageStart || section.start >= pageEnd {
        continue;
      }
      var overlapStart := if pageStart > section.start then pageStart else section.start;
      var overlapEnd := if pageEnd < section.end then pageEnd else section.end;
      var overlap := SatSub(overlapEnd, overlapStart);
      if overlap > bestOverlap {
        bestOverlap := overlap;
        bestName := section.name;
        best := Some(i);
      }
    }
    assert sections[..|sections|] == sections;
    BestIsUnique(pageStart, pageEnd, sections, best);
    return "[" + bestName + "]";
  }

  predicate IsBracket(c: char) {
    c == '[' || c == ']'
  }

  function TrimLeft(s: string): string {
    if s != "" && IsBracket(s[0]) then TrimLeft(s[1..]) else s
  }

  function TrimRight(s: string): string {
    if s != "" && IsBracket(s[|s| - 1]) then TrimRight(s[..|s| - 1]) else s
  }

  function Prefixed(name: string, prefix: Option<string>): string {
    match prefix
    case Some(p) => "[" + p + ":" + TrimRight(TrimLeft(name)) + "]"
    case None => name
  }

  /** A section's label with a prefix, for a name that has no bracket at its ends. */
  lemma PrefixedLabel(name: string, prefix: string)
    requires name != "" && !IsBracket(name[0]) && !IsBracket(name[|name| - 1])
    ensures Prefixed("[" + name + "]", Some(prefix)) == "[" + prefix + ":" + name + "]"
  {
    var bracketed := "[" + name + "]";
    assert bracketed[1..] == name + "]";
    assert TrimLeft(bracketed) == TrimLeft(bracketed[1..]) == name + "]";
    assert (name + "]")[..|name|] == name;
    assert TrimRight(name + "]") == TrimRight(name) == name;
  }

  /** A page by its number. */
  type Page = n: int | 0 <= n < 0x10_0000_0000_0000

  function Address(page: Page): U64 {
    page * 0x1000
  }

  ghost function PageLabel(page: Page, sections: seq<SectionSpan>, prefix: Option<string>): string {
    Prefixed(SectionName(Address(page), WrapAdd(Address(page), 0x1000), sections), prefix)
  }

  /** The first of the sections that have most of the addresses, None when none has any. */
  ghost predicate HasMost(from: int, end: int, sections: seq<SectionSpan>, best: Option<nat>) {
    match best
    case None => forall j :: 0 <= j < |sections| ==> Common(from, end, sections[j]) == 0
    case Some(k) =>
      && k < |sections| && Common(from, end, sections[k]) > 0
      && (forall j :: 0 <= j < |sections| ==> Common(from, end, sections[j]) <= Common(from, end, sections[k]))
      && (forall j :: 0 <= j < k ==> Common(from, end, sections[j]) < Common(from, end, sections[k]))
  }

  lemma BestHasMost(from: U64, end: U64, sections: seq<SectionSpan>)
    ensures HasMost(from, end, sections, Best(from, end, sections))
  {
    forall j | 0 <= j < |sections| ensures Overlap(from, end, sections[j]) == Common(from, end, sections[j]) {
      OverlapCounts(from, end, sections[j]);
    }
  }

  /** A page is named after that section, or "[segment]". */
  lemma PageIsNamed(page: Page, sections: seq<SectionSpan>) returns (best: Option<nat>)
    requires page < 0xF_FFFF_FFFF_FFFF
    ensures HasMost(page * 0x1000, page * 0x1000 + 0x1000, sections, best)
    ensures PageLabel(page, sections, None) == if best.None? then "[segment]" else "[" + sections[best.value].name + "]"
  {
    best := Best(page * 0x1000, page * 0x1000 + 0x1000, sections);
    BestHasMost(page * 0x1000, page * 0x1000 + 0x1000, sections);
  }

  /** The label of every page, by number. */
  ghost function Labels(sections: seq<SectionSpan>, prefix: Option<string>): int -> string {
    n => if 0 <= n < 0x10_0000_0000_0000 then PageLabel(n, sections, prefix) else ""
  }

  /** A run of equally labelled pages [start, end). */
  datatype Chunk = Chunk(start: Page, end: Page, name: string)

  /** The first page from `at` on, short of `end`, that is not labelled `tag`. */
  ghost function RunEnd(tag: string, at: int, end: int, labelOf: int -> string): (r: int)
    requires at <= end
    ensures at <= r <= end
    ensures forall p :: at <= p < r ==> labelOf(p) == tag
    ensures r < end ==> labelOf(r) != tag
    decreases end - at
  {
    if at >= end || labelOf(at) != tag then at else RunEnd(tag, at + 1, end, labelOf)
  }

  ghost function Chunks(start: Page, end: Page, labelOf: int -> string): seq<Chunk>
    decreases end - start
  {
    if start >= end then []
    else
      var next := RunEnd(labelOf(start), start + 1, end, labelOf);
      [Chunk(start, next, labelOf(start))] + Chunks(next, end, labelOf)
  }

  /** The chunks lie end to end from start to end. */
  ghost predicate EndToEnd(chunks: seq<Chunk>, start: int, end: int) {
    if chunks == [] then start >= end
    else chunks[0].start == start < chunks[0].end <= end && EndToEnd(chunks[1..], chunks[0].end, end)
  }

  ghost predicate AllLabelled(c: Chunk, labelOf: int -> string) {
    forall p :: c.start <= p < c.end ==> labelOf(p) == c.name
  }

  /** Decoding the chunks gives back the label of every page. */
  ghost predicate Decodes(chunks: seq<Chunk>, labelOf: int -> string) {
    chunks == [] || (AllLabelled(chunks[0], labelOf) && Decodes(chunks[1..], labelOf))
  }

  /** Adjacent chunks are labelled differently. */
  ghost predicate Maximal(chunks: seq<Chunk>) {
    |chunks| < 2 || (chunks[0].name != chunks[1].name && Maximal(chunks[1..]))
  }

  lemma ConsRun(c: Chunk, chunks: seq<Chunk>, end: int, labelOf: int -> string)
    requires c.start < c.end <= end && AllLabelled(c, labelOf) && Decodes(chunks, labelOf) && Maximal(chunks)
    requires EndToEnd(chunks, c.end, end) && (chunks != [] ==> chunks[0].name != c.name)
    ensures EndToEnd([c] + chunks, c.start, end) && Decodes([c] + chunks, labelOf) && Maximal([c] + chunks)
  {
    assert ([c] + chunks)[1..] == chunks;
  }

  /** The chunks are an exact partition of the segment into maximal runs. */
  lemma {:induction false} ChunksAreRuns(start: Page, end: Page, labelOf: int -> string)
    ensures EndToEnd(Chunks(start, end, labelOf), start, end)
    ensures Decodes(Chunks(start, end, labelOf), labelOf)
    ensures Maximal(Chunks(start, end, labelOf))
    decreases end - start
  {
    if start < end {
      var next: Page := RunEnd(labelOf(start), start + 1, end, labelOf);
      var first := Chunk(start, next, labelOf(start));
      ChunksAreRuns(next, end, labelOf);
      ConsRun(first, Chunks(next, end, labelOf), end, labelOf);
    }
  }

  lemma {:induction false} RunEndIs(tag: string, at: int, end: int, labelOf: int -> string, e: int)
    requires at <= e <= end
    requires forall p :: at <= p < e ==> labelOf(p) == tag
    requires e < end ==> labelOf(e) != tag
    ensures RunEnd(tag, at, end, labelOf) == e
    decreases e - at
  {
    if at < e {
      RunEndIs(tag, at + 1, end, labelOf, e);
    }
  }

  lemma FirstRunEnds(chunks: seq<Chunk>, start: Page, end: Page, labelOf: int -> string)
    requires EndToEnd(chunks, start, end) && Decodes(chunks, labelOf) && Maximal(chunks) && chunks != []
    ensures chunks[0].name == labelOf(start)
    ensures RunEnd(labelOf(start), start + 1, end, labelOf) == chunks[0].end
  {
    var c := chunks[0];
    if c.end < end {
      var d := chunks[1..][0];
      assert d == chunks[1] && d.start == c.end;
      assert AllLabelled(d, labelOf) && labelOf(d.start) == d.name;
    }
    RunEndIs(c.name, start + 1, end, labelOf, c.end);
  }

  /** No other list of chunks has these properties. */
  lemma {:induction false} RunsAreUnique(chunks: seq<Chunk>, start: Page, end: Page, labelOf: int -> string)
    requires EndToEnd(chunks, start, end) && Decodes(chunks, labelOf) && Maximal(chunks)
    ensures chunks == Chunks(start, end, labelOf)
    decreases |chunks|
  {
    if chunks != [] {
      FirstRunEnds(chunks, start, end, labelOf);
      RunsAreUnique(chunks[1..], chunks[0].end, end, labelOf);
    }
  }

  // ---- mapping

  ghost function ChunkSize(c: Chunk): U64 {
    SatSub(Address(c.end), Address(c.start))
  }

  ghost function WithChunk(s: Space, c: Chunk, prot: Prot): Space {
    Mapped(s, Address(c.start), ChunkSize(c), prot, c.name)
  }

  /** Mapping chunks one by one, stopping at the first refusal. */
  ghost function MapChunks(s: Space, chunks: seq<Chunk>, prot: Prot): (Space, bool)
    decreases |chunks|
  {
    if chunks == [] then (s, true)
    else if CanMap(s.cells, Address(chunks[0].start), ChunkSize(chunks[0])) then
      MapChunks(WithChunk(s, chunks[0], prot), chunks[1..], prot)
    else (s, false)
  }

  lemma MapCons(s: Space, c: Chunk, chunks: seq<Chunk>, prot: Prot)
    ensures MapChunks(s, [c] + chunks, prot) ==
      if CanMap(s.cells, Address(c.start), ChunkSize(c)) then MapChunks(WithChunk(s, c, prot), chunks, prot)
      else (s, false)
  {
    assert ([c] + chunks)[1..] == chunks;
  }

  lemma {:induction false} MapChunksAppend(s: Space, chunks: seq<Chunk>, c: Chunk, prot: Prot)
    requires MapChunks(s, chunks, prot).1
    ensures MapChunks(s, chunks + [c], prot) == MapChunks(MapChunks(s, chunks, prot).0, [c], prot)
    decreases |chunks|
  {
    if chunks == [] {
      assert chunks + [c] == [c];
    } else {
      assert (chunks + [c])[1..] == chunks[1..] + [c];
      MapChunksAppend(WithChunk(s, chunks[0], prot), chunks[1..], c, prot);
    }
  }

  lemma {:induction false} MapChunksFailed(s: Space, chunks: seq<Chunk>, more: seq<Chunk>, prot: Prot)
    requires !MapChunks(s, chunks, prot).1
    ensures MapChunks(s, chunks + more, prot) == MapChunks(s, chunks, prot)
    decreases |chunks|
  {
    assert (chunks + more)[1..] == chunks[1..] + more;
    if CanMap(s.cells, Address(chunks[0].start), ChunkSize(chunks[0])) {
      MapChunksFailed(WithChunk(s, chunks[0], prot), chunks[1..], more, prot);
    }
  }

  method PageLabelOf(address: U64, sections: seq<SectionSpan>, prefix: Option<string>, ghost page: Page)
    returns (name: string)
    requires address == Address(page)
    ensures name == PageLabel(page, sections, prefix)
  {
    name := SectionNameForPage(address, WrapAdd(address, 0x1000), sections);
    name := Prefixed(name, prefix);
  }

  lemma MapNext(was: Space, done: seq<Chunk>, now: Space, c: Chunk, prot: Prot)
    requires MapChunks(was, done, prot) == (now, true)
    ensures MapChunks(was, done + [c], prot) ==
      if CanMap(now.cells, Address(c.start), ChunkSize(c)) then (WithChunk(now, c, prot), true) else (now, false)
  {
    MapChunksAppend(was, done, c, prot);
    assert [c] + [] == [c];
    MapCons(now, c, [], prot);
  }

  /** The state of the loop: `done` is emitted, and the pages from `first` to `at` are known to be
      labelled alike. */
  ghost predicate Emitting(goal: seq<Chunk>, done: seq<Chunk>, first: Page, at: Page, last: Page,
                           labelOf: int -> string)
  {
    && goal == done + Chunks(first, last, labelOf)
    && (at >= last ==> first >= last)
    && (at < last ==> first <= at && RunEnd(labelOf(first), first + 1, last, labelOf)
                                  == RunEnd(labelOf(first), at + 1, last, labelOf))
  }

  lemma EmitStart(first: Page, last: Page, labelOf: int -> string)
    ensures Emitting(Chunks(first, last, labelOf), [], first, first, last, labelOf)
  {
  }

  lemma EmitLonger(goal: seq<Chunk>, done: seq<Chunk>, first: Page, at: Page, last: Page, labelOf: int -> string)
    requires Emitting(goal, done, first, at, last, labelOf) && at + 1 < last && labelOf(at + 1) == labelOf(first)
    ensures Emitting(goal, done, first, at + 1, last, labelOf)
  {
  }

  lemma EmitChunk(goal: seq<Chunk>, done: seq<Chunk>, first: Page, at: Page, last: Page, labelOf: int -> string)
    requires Emitting(goal, done, first, at, last, labelOf) && at < last
    requires at + 1 < last ==> labelOf(at + 1) != labelOf(first)
    ensures Emitting(goal, done + [Chunk(first, at + 1, labelOf(first))], at + 1, at + 1, last, labelOf)
  {
    RunEndIs(labelOf(first), at + 1, last, labelOf, at + 1);
    var chunk, rest := Chunk(first, at + 1, labelOf(first)), Chunks(at + 1, last, labelOf);
    assert Chunks(first, last, labelOf) == [chunk] + rest;
    assert done + ([chunk] + rest) == (done + [chunk]) + rest;
  }

  lemma EmitEnd(goal: seq<Chunk>, done: seq<Chunk>, first: Page, at: Page, last: Page, labelOf: int -> string)
    requires Emitting(goal, done, first, at, last, labelOf) && at >= last
    ensures done == goal
  {
  }

  /** The body of the loop where a run ends: map it, or give up. */
  method EmitOne(vk: Valkyrie, chunkStart: U64, next: U64, prot: Prot, name: string, ghost was: Space,
                 ghost goal: seq<Chunk>, ghost done: seq<Chunk>, ghost first: Page, ghost at: Page, ghost last: Page,
                 ghost labelOf: int -> string)
    returns (ok: bool, ghost longer: seq<Chunk>)
    requires Emitting(goal, done, first, at, last, labelOf) && at < last
    requires at + 1 < last ==> labelOf(at + 1) != labelOf(first)
    requires chunkStart == Address(first) && next == Address(at + 1) && name == labelOf(first)
    requires MapChunks(was, done, prot) == (vk.AddressSpace(), true)
    modifies vk.mem`regions, vk.uc
    ensures ok ==> Emitting(goal, longer, at + 1, at + 1, last, labelOf)
    ensures ok ==> MapChunks(was, longer, prot) == (vk.AddressSpace(), true)
    ensures !ok ==> MapChunks(was, goal, prot) == (vk.AddressSpace(), false)
  {
    ghost var chunk := Chunk(first, at + 1, name);
    ghost var now := vk.AddressSpace();
    longer := done + [chunk];
    EmitChunk(goal, done, first, at, last, labelOf);
    MapNext(was, done, now, chunk, prot);
    ok := vk.mem.Map(vk.uc, chunkStart, SatSub(next, chunkStart), prot, name);
    if ok {
      assert vk.AddressSpace() == WithChunk(now, chunk, prot);
    } else {
      MapChunksFailed(was, longer, Chunks(at + 1, last, labelOf), prot);
    }
  }

  /** And those emitted are mapped. */
  ghost predicate Mapping(was: Space, now: Space, prot: Prot, goal: seq<Chunk>, done: seq<Chunk>, first: Page, at: Page,
                          last: Page, labelOf: int -> string)
  {
    Emitting(goal, done, first, at, last, labelOf) && MapChunks(was, done, prot) == (now, true)
  }

  /** One turn of the loop: a run that ends at this page is mapped, and the next one begins. */
  method Advance(vk: Valkyrie, chunkStart: U64, chunkLabel: string, next: U64, nextLabel: string, end: U64, prot: Prot,
                 ghost was: Space, ghost goal: seq<Chunk>, ghost done: seq<Chunk>, ghost first: Page, ghost at: Page,
                 ghost last: Page, ghost labelOf: int -> string)
    returns (ok: bool, newStart: U64, newLabel: string, ghost longer: seq<Chunk>, ghost newFirst: Page)
    requires at < last && Mapping(was, vk.AddressSpace(), prot, goal, done, first, at, last, labelOf)
    requires chunkStart == Address(first) && chunkLabel == labelOf(first)
    requires next == Address(at + 1) && end == Address(last) && (at + 1 < last ==> nextLabel == labelOf(at + 1))
    modifies vk.mem`regions, vk.uc
    ensures ok ==> Mapping(was, vk.AddressSpace(), prot, goal, longer, newFirst, at + 1, last, labelOf)
    ensures ok ==> newStart == Address(newFirst)
    ensures ok && at + 1 < last ==> newLabel == labelOf(newFirst)
    ensures !ok ==> MapChunks(was, goal, prot) == (vk.AddressSpace(), false)
  {
    newStart, newLabel, longer, newFirst := chunkStart, chunkLabel, done, first;
    if next >= end || nextLabel != chunkLabel {
      ok, longer := EmitOne(vk, chunkStart, next, prot, chunkLabel, was, goal, done, first, at, last, labelOf);
      newStart, newLabel, newFirst := next, nextLabel, at + 1;
    } else {
      EmitLonger(goal, done, first, at, last, labelOf);
      ok := true;
    }
  }

  lemma MappingStarts(s: Space, prot: Prot, first: Page, last: Page, labelOf: int -> string)
    ensures Mapping(s, s, prot, Chunks(first, last, labelOf), [], first, first, last, labelOf)
  {
    EmitStart(first, last, labelOf);
  }

  lemma MappingEnds(was: Space, now: Space, prot: Prot, goal: seq<Chunk>, done: seq<Chunk>, first: Page, at: Page,
                    last: Page, labelOf: int -> string)
    requires Mapping(was, now, prot, goal, done, first, at, last, labelOf) && at >= last
    ensures MapChunks(was, goal, prot) == (now, true)
  {
    EmitEnd(goal, done, first, at, last, labelOf);
  }

  /** The segment lies on the pages [first, last), labelled as Labels says. */
  method MapSegmentBySection(vk: Valkyrie, start: U64, end: U64, prot: Prot, sections: seq<SectionSpan>,
                             prefix: Option<string>, ghost first: Page, ghost last: Page, ghost labelOf: int -> string)
    returns (ok: bool)
    requires start == Address(first) && end == Address(last)
    requires forall p: Page {:trigger PageLabel(p, sections, prefix)} :: labelOf(p) == PageLabel(p, sections, prefix)
    modifies vk.mem`regions, vk.uc
    ensures (vk.AddressSpace(), ok) == MapChunks(old(vk.AddressSpace()), Chunks(first, last, labelOf), prot)
  {
    ghost var was := vk.AddressSpace();
    ghost var goal := Chunks(first, last, labelOf);
    ghost var done: seq<Chunk> := [];
    ghost var from: Page, at: Page := first, first;
    var chunkStart: U64, current: U64 := start, start;
    var chunkLabel := PageLabelOf(current, sections, prefix, at);
    MappingStarts(was, prot, first, last, labelOf);
    while current < end
      invariant chunkStart == Address(from) && current == Address(at)
      invariant at < last ==> chunkLabel == labelOf(from)
      invariant Mapping(was, vk.AddressSpace(), prot, goal, done, from, at, last, labelOf)
      decreases end - current
    {
      var next: U64 := current + 0x1000;
      var nextLabel := chunkLabel;
      if next < end {
        nextLabel := PageLabelOf(next, sections, prefix, at + 1);
      }
      ok, chunkStart, chunkLabel, done, from := Advance(vk, chunkStart, chunkLabel, next, nextLabel, end, prot,
                                                        was, goal, done, from, at, last, labelOf);
      if !ok {
        return;
      }
      current := next;
      at := at + 1;
    }
    MappingEnds(was, vk.AddressSpace(), prot, goal, done, from, at, last, labelOf);
    return true;
  }

  ghost predicate Unmapped(cells: Cells, start: Page, end: Page) {
    forall a :: Address(start) <= a < Address(end) ==> a !in cells
  }

  ghost function MapPages(cells: Cells, start: Page, end: Page, prot: Prot): Cells
    requires start <= end
  {
    MapCells(cells, Address(start), Address(end) - Address(start), prot)
  }

  lemma CanMapPages(cells: Cells, start: Page, end: Page)
    requires start < end
    ensures CanMap(cells, Address(start), Address(end) - Address(start)) <==> Unmapped(cells, start, end)
  {
  }

  lemma MapTwiceAt(cells: Cells, start: Page, mid: Page, end: Page, prot: Prot, a: int)
    requires start <= mid <= end
    ensures var twice, once := MapPages(MapPages(cells, start, mid, prot), mid, end, prot),
        MapPages(cells, start, end, prot);
      (a in twice <==> a in once) && (a in once ==> twice[a] == once[a])
  {
    var low, high := Address(mid) - Address(start), Address(end) - Address(mid);
    MapCellsAt(cells, Address(start), low, prot, a);
    MapCellsAt(MapPages(cells, start, mid, prot), Address(mid), high, prot, a);
    MapCellsAt(cells, Address(start), Address(end) - Address(start), prot, a);
  }

  lemma MapTwice(cells: Cells, start: Page, mid: Page, end: Page, prot: Prot)
    requires start <= mid <= end
    ensures MapPages(MapPages(cells, start, mid, prot), mid, end, prot) == MapPages(cells, start, end, prot)
  {
    forall a ensures
        var twice, once := MapPages(MapPages(cells, start, mid, prot), mid, end, prot),
            MapPages(cells, start, end, prot);
        (a in twice <==> a in once) && (a in once ==> twice[a] == once[a])
    {
      MapTwiceAt(cells, start, mid, end, prot, a);
    }
  }

  lemma UnmappedTwice(cells: Cells, start: Page, mid: Page, end: Page, prot: Prot)
    requires start <= mid <= end
    ensures Unmapped(cells, start, end) <==>
      Unmapped(cells, start, mid) && Unmapped(MapPages(cells, start, mid, prot), mid, end)
  {
    var half := MapPages(cells, start, mid, prot);
    assert forall a :: Address(mid) <= a < Address(end) ==> (a in half <==> a in cells);
  }

  lemma MapFirst(s: Space, start: Page, next: Page, end: Page, prot: Prot, labelOf: int -> string)
    requires start < next <= end && next == RunEnd(labelOf(start), start + 1, end, labelOf)
    ensures MapChunks(s, Chunks(start, end, labelOf), prot) ==
      if Unmapped(s.cells, start, next)
      then MapChunks(WithChunk(s, Chunk(start, next, labelOf(start)), prot), Chunks(next, end, labelOf), prot)
      else (s, false)
    ensures WithChunk(s, Chunk(start, next, labelOf(start)), prot).cells == MapPages(s.cells, start, next, prot)
  {
    MapCons(s, Chunk(start, next, labelOf(start)), Chunks(next, end, labelOf), prot);
    CanMapPages(s.cells, start, next);
  }

  /** Cutting a segment up makes no difference to the engine: the chunks go in exactly when the
      whole range would, and leave the memory one mapping of it would leave. */
  lemma {:induction false} ChunksMapLikeOne(s: Space, start: Page, end: Page, prot: Prot, labelOf: int -> string)
    requires start <= end
    ensures MapChunks(s, Chunks(start, end, labelOf), prot).1 <==> Unmapped(s.cells, start, end)
    ensures MapChunks(s, Chunks(start, end, labelOf), prot).1 ==>
      MapChunks(s, Chunks(start, end, labelOf), prot).0.cells == MapPages(s.cells, start, end, prot)
    decreases end - start
  {
    if start < end {
      var next: Page := RunEnd(labelOf(start), start + 1, end, labelOf);
      MapFirst(s, start, next, end, prot, labelOf);
      MapTwice(s.cells, start, next, end, prot);
      UnmappedTwice(s.cells, start, next, end, prot);
      ChunksMapLikeOne(WithChunk(s, Chunk(start, next, labelOf(start)), prot), next, end, prot, labelOf);
    } else {
      assert MapPages(s.cells, start, end, prot) == s.cells;
    }
  }

  /** Mapping chunks keeps list and engine in agreement. */
  lemma {:induction false} MapChunksAgree(s: Space, chunks: seq<Chunk>, prot: Prot)
    requires Agree(s)
    ensures Agree(MapChunks(s, chunks, prot).0)
    decreases |chunks|
  {
    if chunks != [] && CanMap(s.cells, Address(chunks[0].start), ChunkSize(chunks[0])) {
      MappedAgree(s, Address(chunks[0].start), ChunkSize(chunks[0]), prot, chunks[0].name);
      MapChunksAgree(WithChunk(s, chunks[0], prot), chunks[1..], prot);
    }
  }
}
