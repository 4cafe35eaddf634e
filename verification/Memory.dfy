/** `VMemory` of src/memory.rs: the region list kept beside the engine. */
module Memory {
  import opened Words
  import opened Regions
  import opened Engine

  class VMemory {
    var regions: seq<Region>
    var heapStart: U64
    var heapExit: U64
    var tlsStart: U64

    constructor ()
      ensures regions == [] && heapStart == heapExit == tlsStart == 0
    {
      regions := [];
      heapStart, heapExit, tlsStart := 0, 0, 0;
    }

    method Map(uc: Unicorn, addr: U64, size: U64, prot: Prot, info: string) returns (ok: bool)
      modifies this`regions, uc
      ensures ok == CanMap(old(uc.cells), addr, size)
      ensures uc.cells == if ok then MapCells(old(uc.cells), addr, size, prot) else old(uc.cells)
      ensures regions == if ok then old(regions) + [Region(addr, size, prot, info)] else old(regions)
    {
      if size == 0 {
        return false;
      }
      ok := uc.MemMap(addr, size, prot);
      if !ok {
        return false;
      }
      regions := regions + [Region(addr, size, prot, info)];
    }

    /** An empty write is an error, unlike the engine's own. */
    method Write(uc: Unicorn, addr: U64, data: seq<Byte>) returns (ok: bool)
      modifies uc
      ensures ok == (data != [] && AllMapped(old(uc.cells), addr, |data|))
      ensures uc.cells == if ok then WriteCells(old(uc.cells), addr, data) else old(uc.cells)
    {
      if data == [] {
        return false;
      }
      ok := uc.MemWrite(addr, data);
    }

    method Read(uc: Unicorn, addr: U64, size: nat) returns (data: Option<seq<Byte>>)
      ensures data.Some? == (0 < size && AllMapped(uc.cells, addr, size))
      ensures data.Some? ==> data.value == ReadCells(uc.cells, addr, size)
    {
      if size == 0 {
        return None;
      }
      data := uc.MemRead(addr, size);
    }

    method RemoveRange(addr: U64, size: U64)
      modifies this`regions
      ensures regions == Regions.RemoveRange(old(regions), addr, size)
    {
      if size == 0 {
        return;
      }
      var end := SatAdd(addr, size);
      var drained := regions;
      var updated: seq<Region> := [];
      for i := 0 to |drained|
        invariant updated == Removed(drained[..i], addr, end)
      {
        var region := drained[i];
        ghost var before := updated;
        var regionEnd := SatEnd(region);
        if end <= region.start || addr >= regionEnd {
          updated := updated + [region];
        } else {
          if addr > region.start {
            updated := updated + [region.(size := SatSub(addr, region.start))];
          }
          if end < regionEnd {
            updated := updated + [region.(start := end, size := SatSub(regionEnd, end))];
          }
        }
        assert updated == before + Pieces(region, addr, end);
        RemovedOfAppend(drained[..i], region, addr, end);
        assert drained[..i + 1] == drained[..i] + [region];
      }
      assert drained[..|drained|] == drained;
      regions := updated;
    }
  }
}
