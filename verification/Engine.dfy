/** The CPU engine (Unicorn) as far as guest memory goes: an address-indexed map of protection and
    byte. The library is not part of the repository; what its calls do here is an assumption. */
module Engine {
  import opened Words
  import opened Regions

  datatype Cell = Cell(prot: Prot, byte: Byte)

  type Cells = map<int, Cell>

  predicate InRange(a: int, start: int, size: int) {
    start <= a < start + size
  }

  predicate AllMapped(cells: Cells, start: int, size: nat) {
    forall a :: start <= a < start + size ==> a in cells
  }

  predicate NoneMapped(cells: Cells, start: int, size: nat) {
    forall a :: start <= a < start + size ==> a !in cells
  }

  predicate CanMap(cells: Cells, start: U64, size: U64) {
    && 0 < size && Aligned(start) && Aligned(size)
    && start + size <= MAX_U64 + 1
    && NoneMapped(cells, start, size)
  }

  /** `mem_unmap` and `mem_protect` accept an empty range and otherwise want whole mapped pages. */
  predicate CanEdit(cells: Cells, start: U64, size: U64) {
    size == 0 ||
    (Aligned(start) && Aligned(size) && start + size <= MAX_U64 + 1 && AllMapped(cells, start, size))
  }

  function MapCells(cells: Cells, start: U64, size: U64, prot: Prot): Cells {
    cells + map a | start <= a < start + size && InRange(a, start, size) :: Cell(prot, 0)
  }

  function UnmapCells(cells: Cells, start: U64, size: U64): Cells {
    map a | a in cells && !(start <= a < start + size) :: cells[a]
  }

  function ProtectCells(cells: Cells, start: U64, size: U64, prot: Prot): Cells {
    map a | a in cells :: if start <= a < start + size then cells[a].(prot := prot) else cells[a]
  }

  function WriteCells(cells: Cells, addr: int, data: seq<Byte>): Cells {
    map a | a in cells :: if addr <= a < addr + |data| then cells[a].(byte := data[a - addr]) else cells[a]
  }

  function ReadCells(cells: Cells, addr: int, size: nat): (data: seq<Byte>)
    requires AllMapped(cells, addr, size)
    ensures |data| == size
    ensures forall i :: 0 <= i < size ==> data[i] == cells[addr + i].byte
  {
    seq<Byte>(size, i requires 0 <= i < size => cells[addr + i].byte)
  }

  lemma MapCellsAt(cells: Cells, start: U64, size: U64, prot: Prot, a: int)
    ensures a in MapCells(cells, start, size, prot) <==> a in cells || InRange(a, start, size)
    ensures InRange(a, start, size) ==> MapCells(cells, start, size, prot)[a] == Cell(prot, 0)
    ensures a in cells && !InRange(a, start, size) ==> MapCells(cells, start, size, prot)[a] == cells[a]
  {
  }

  lemma MappedSplit(cells: Cells, lo: int, mid: int, hi: int)
    requires lo <= mid <= hi
    ensures AllMapped(cells, lo, hi - lo) <==> AllMapped(cells, lo, mid - lo) && AllMapped(cells, mid, hi - mid)
  {
    if AllMapped(cells, lo, mid - lo) && AllMapped(cells, mid, hi - mid) {
      forall a | lo <= a < hi ensures a in cells {
        assert a < mid || mid <= a;
      }
    }
  }

  lemma WriteKeepsMapped(cells: Cells, addr: int, data: seq<Byte>, start: int, size: nat)
    ensures AllMapped(WriteCells(cells, addr, data), start, size) <==> AllMapped(cells, start, size)
  {
    assert forall a :: a in WriteCells(cells, addr, data) <==> a in cells;
  }

  /** The bytes just written are the bytes read back. */
  lemma ReadAfterWrite(cells: Cells, addr: int, data: seq<Byte>)
    requires AllMapped(cells, addr, |data|)
    ensures ReadCells(WriteCells(cells, addr, data), addr, |data|) == data
  {
  }

  class Unicorn {
    var cells: Cells

    constructor ()
      ensures cells == map[]
    {
      cells := map[];
    }

    method MemMap(start: U64, size: U64, prot: Prot) returns (ok: bool)
      modifies this
      ensures ok == CanMap(old(cells), start, size)
      ensures cells == if ok then MapCells(old(cells), start, size, prot) else old(cells)
    {
      ok := CanMap(cells, start, size);
      if ok {
        cells := MapCells(cells, start, size, prot);
      }
    }

    method MemUnmap(start: U64, size: U64) returns (ok: bool)
      modifies this
      ensures ok == CanEdit(old(cells), start, size)
      ensures cells == if ok then UnmapCells(old(cells), start, size) else old(cells)
    {
      ok := CanEdit(cells, start, size);
      if ok {
        cells := UnmapCells(cells, start, size);
      }
    }

    method MemProtect(start: U64, size: U64, prot: Prot) returns (ok: bool)
      modifies this
      ensures ok == CanEdit(old(cells), start, size)
      ensures cells == if ok then ProtectCells(old(cells), start, size, prot) else old(cells)
    {
      ok := CanEdit(cells, start, size);
      if ok {
        cells := ProtectCells(cells, start, size, prot);
      }
    }

    method MemWrite(addr: U64, data: seq<Byte>) returns (ok: bool)
      modifies this
      ensures ok == AllMapped(old(cells), addr, |data|)
      ensures cells == if ok then WriteCells(old(cells), addr, data) else old(cells)
    {
      ok := AllMapped(cells, addr, |data|);
      if ok {
        cells := WriteCells(cells, addr, data);
      }
    }

    method MemRead(addr: U64, size: nat) returns (data: Option<seq<Byte>>)
      ensures data.Some? == AllMapped(cells, addr, size)
      ensures data.Some? ==> data.value == ReadCells(cells, addr, size)
    {
      if AllMapped(cells, addr, size) {
        data := Some(ReadCells(cells, addr, size));
      } else {
        data := None;
      }
    }
  }
}
