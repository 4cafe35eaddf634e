/** The i386 thread-local descriptors: `sys_set_thread_area` of src/os/syscall/thread.rs over the
    GDT of src/os/linux.rs. */
module Tls {
  import opened Words
  import opened Engine
  import opened Emulator
  import opened Bytes
  import opened Syscalls

  const TLS_MIN: nat := 6
  const TLS_MAX: nat := 8

  /** The request as the guest lays it out: four words. */
  datatype UserDesc = UserDesc(entryNumber: U32, base: U32, limit: U32, flags: U32)

  predicate Seg32(d: UserDesc) { d.flags % 2 == 1 }
  function Contents(d: UserDesc): (c: nat) ensures c < 4 { d.flags / 2 % 4 }
  predicate ReadExecOnly(d: UserDesc) { d.flags / 8 % 2 == 1 }
  predicate LimitInPages(d: UserDesc) { d.flags / 16 % 2 == 1 }
  predicate NotPresent(d: UserDesc) { d.flags / 32 % 2 == 1 }
  predicate Useable(d: UserDesc) { d.flags / 64 % 2 == 1 }

  predicate IsEmpty(d: UserDesc) {
    && d.base == 0 && d.limit == 0 && !Seg32(d) && Contents(d) == 0
    && ReadExecOnly(d) && !LimitInPages(d) && NotPresent(d) && !Useable(d)
  }

  /** Present bit, privilege level 3, code-or-data bit, type. */
  function AccessByte(d: UserDesc): Option<Byte> {
    if Contents(d) == 3 then None
    else
      var kind := 4 * Contents(d) + (if ReadExecOnly(d) then 0 else 2);
      Some((if NotPresent(d) then 0 else 0x80) + 0x60 + 0x10 + kind)
  }

  function FlagBits(d: UserDesc): (f: Byte)
    ensures f < 16
  {
    (if Useable(d) then 1 else 0) + (if Seg32(d) then 4 else 0) + (if LimitInPages(d) then 8 else 0)
  }

  /** An 8-byte segment descriptor. */
  function GdtDesc(base: U32, limit: U32, access: Byte, flags: Byte): (d: seq<Byte>)
    ensures |d| == 8
  {
    [limit % 0x100, limit / 0x100 % 0x100,
     base % 0x100, base / 0x100 % 0x100, base / 0x1_0000 % 0x100,
     access,
     limit / 0x1_0000 % 0x10 + flags % 0x10 * 0x10,
     base / 0x100_0000 % 0x100]
  }

  /** The fields of a descriptor as the processor reads them: section 3.4.5 of volume 3A of the Intel
      Software Developer's Manual. */
  datatype Descriptor = Descriptor(base: nat, limit: nat, access: nat, flags: nat)

  function Decode(d: seq<Byte>): Descriptor
    requires |d| == 8
  {
    Descriptor(d[2] as int + 0x100 * d[3] as int + 0x1_0000 * d[4] as int + 0x100_0000 * d[7] as int,
               d[0] as int + 0x100 * d[1] as int + 0x1_0000 * (d[6] as int % 0x10),
               d[5], d[6] / 0x10)
  }

  lemma Digit(n: nat)
    ensures n == n % 0x100 + 0x100 * (n / 0x100)
  {
  }

  lemma ThirdDigit(n: nat)
    ensures n / 0x1_0000 == n / 0x100 / 0x100
  {
  }

  lemma FourthDigit(n: nat)
    ensures n / 0x100_0000 == n / 0x1_0000 / 0x100
    ensures n < 0x1_0000_0000 ==> n / 0x100_0000 % 0x100 == n / 0x100_0000
  {
  }

  lemma BaseDigits(base: U32)
    ensures base % 0x100 + 0x100 * (base / 0x100 % 0x100) + 0x1_0000 * (base / 0x1_0000 % 0x100)
            + 0x100_0000 * (base / 0x100_0000 % 0x100) == base
  {
    ThirdDigit(base);
    FourthDigit(base);
    Digit(base);
    Digit(base / 0x100);
    Digit(base / 0x1_0000);
  }

  lemma LimitDigits(limit: U32)
    requires limit <= 0xF_FFFF
    ensures limit % 0x100 + 0x100 * (limit / 0x100 % 0x100) + 0x1_0000 * (limit / 0x1_0000 % 0x10) == limit
  {
  }

  /** Base, 20-bit limit, access byte and flags come back from the packed form. */
  lemma DescriptorRoundTrip(base: U32, limit: U32, access: Byte, flags: Byte)
    requires limit <= 0xF_FFFF && flags < 0x10
    ensures Decode(GdtDesc(base, limit, access, flags)) == Descriptor(base, limit, access, flags)
  {
    BaseDigits(base);
    LimitDigits(limit);
    var d6 := limit / 0x1_0000 % 0x10 + flags % 0x10 * 0x10;
    assert d6 % 0x10 == limit / 0x1_0000 % 0x10 && d6 / 0x10 == flags;
  }

  /** A packed request is never all zeros: privilege and code-or-data bits are always set. */
  lemma PackedIsNotZero(d: UserDesc)
    requires Contents(d) != 3
    ensures GdtDesc(d.base, d.limit, AccessByte(d).value, FlagBits(d)) != ZERO_ENTRY
  {
    assert GdtDesc(d.base, d.limit, AccessByte(d).value, FlagBits(d))[5] >= 0x70;
  }

  const ZERO_ENTRY: seq<Byte> := [0, 0, 0, 0, 0, 0, 0, 0]

  // ---- the call on guest memory

  /** Entry n of the table at the start of the TLS page. */
  function EntryAddr(gdt: U64, entry: nat): U64
    requires entry <= TLS_MAX
  {
    WrapAdd(gdt, entry * 8)
  }

  lemma ReadsWord(bytes: seq<Byte>)
    requires |bytes| == 4
    ensures FromLE(bytes) < 0x1_0000_0000
  {
    FromLEBound(bytes);
    assert Pow256(4) == 0x1_0000_0000;
  }

  function DescOf(bytes: seq<Byte>): UserDesc
    requires |bytes| == 16
  {
    ReadsWord(bytes[0..4]);
    ReadsWord(bytes[4..8]);
    ReadsWord(bytes[8..12]);
    ReadsWord(bytes[12..16]);
    UserDesc(FromLE(bytes[0..4]), FromLE(bytes[4..8]), FromLE(bytes[8..12]), FromLE(bytes[12..16]))
  }

  datatype Found = Slot(n: nat) | NoneFree | Unreadable

  /** The search for an all-zero entry. */
  function FindFree(cells: Cells, gdt: U64, from: nat): Found
    decreases TLS_MAX + 1 - from
  {
    if from > TLS_MAX then NoneFree
    else if !AllMapped(cells, EntryAddr(gdt, from), 8) then Unreadable
    else if ReadCells(cells, EntryAddr(gdt, from), 8) == ZERO_ENTRY then Slot(from)
    else FindFree(cells, gdt, from + 1)
  }

  method FindFreeTlsEntry(vk: Valkyrie) returns (found: Found)
    ensures found == FindFree(vk.uc.cells, vk.mem.tlsStart, TLS_MIN)
  {
    for n := TLS_MIN to TLS_MAX + 1
      invariant FindFree(vk.uc.cells, vk.mem.tlsStart, TLS_MIN) == FindFree(vk.uc.cells, vk.mem.tlsStart, n)
    {
      var descriptor := vk.mem.Read(vk.uc, EntryAddr(vk.mem.tlsStart, n), 8);
      if descriptor.None? {
        return Unreadable;
      }
      if descriptor.value == ZERO_ENTRY {
        return Slot(n);
      }
    }
    return NoneFree;
  }

  const AUTO: U32 := 0xFFFF_FFFF

  function WriteEntry(cells: Cells, gdt: U64, slot: nat, entry: seq<Byte>): (Cells, Outcome)
    requires slot <= TLS_MAX && |entry| == 8
  {
    if AllMapped(cells, EntryAddr(gdt, slot), 8) then (WriteCells(cells, EntryAddr(gdt, slot), entry), Ret(0))
    else (cells, Fault)
  }

  /** From the chosen slot on. */
  function Install(cells: Cells, gdt: U64, addr: U64, d: UserDesc, slot: nat): (Cells, Outcome) {
    if slot < TLS_MIN || slot > TLS_MAX || Contents(d) == 3 then (cells, Fail(EINVAL))
    else
      var told := WriteCells(cells, addr, ToLE(slot, 4));
      if IsEmpty(d) then WriteEntry(told, gdt, slot, ZERO_ENTRY)
      else WriteEntry(told, gdt, slot, GdtDesc(d.base, d.limit, AccessByte(d).value, FlagBits(d)))
  }

  function ThreadAreaStep(cells: Cells, gdt: U64, is32: bool, addr: U64): (Cells, Outcome) {
    if !is32 then (cells, Fail(ENOSYS))
    else if addr == 0 then (cells, Fail(EFAULT))
    else if !AllMapped(cells, addr, 16) then (cells, Fault)
    else
      var d := DescOf(ReadCells(cells, addr, 16));
      if d.limit > 0xF_FFFF then (cells, Fail(EINVAL))
      else if d.entryNumber != AUTO then Install(cells, gdt, addr, d, d.entryNumber)
      else match FindFree(cells, gdt, TLS_MIN)
        case Unreadable => (cells, Fault)
        case NoneFree => (cells, Fail(ESRCH))
        case Slot(n) => Install(cells, gdt, addr, d, n)
  }

  method SysSetThreadArea(vk: Valkyrie, is32: bool, addr: U64) returns (r: Outcome)
    modifies vk.uc
    ensures (vk.uc.cells, r) == ThreadAreaStep(old(vk.uc.cells), vk.mem.tlsStart, is32, addr)
  {
    if !is32 {
      return Fail(ENOSYS);
    }
    if addr == 0 {
      return Fail(EFAULT);
    }
    var bytes := vk.mem.Read(vk.uc, addr, 16);
    if bytes.None? {
      return Fault;
    }
    var desc := DescOf(bytes.value);
    if desc.limit > 0xF_FFFF {
      return Fail(EINVAL);
    }
    var slot: nat := desc.entryNumber;
    if desc.entryNumber == AUTO {
      var found := FindFreeTlsEntry(vk);
      match found
      case Unreadable => return Fault;
      case NoneFree => return Fail(ESRCH);
      case Slot(n) => slot := n;
    }
    if slot < TLS_MIN || slot > TLS_MAX {
      return Fail(EINVAL);
    }
    if Contents(desc) == 3 {
      return Fail(EINVAL);
    }
    assert AllMapped(vk.uc.cells, addr, 4);
    var ok := vk.mem.Write(vk.uc, addr, ToLE(slot, 4));
    var entry := if IsEmpty(desc) then ZERO_ENTRY
                 else GdtDesc(desc.base, desc.limit, AccessByte(desc).value, FlagBits(desc));
    ok := vk.mem.Write(vk.uc, EntryAddr(vk.mem.tlsStart, slot), entry);
    return if ok then Ret(0) else Fault;
  }

  // ---- the table as a guest thinks of it

  /** The three automatic slots: free, or set to a descriptor. */
  datatype Table = Table(first: Option<Descriptor>, second: Option<Descriptor>, third: Option<Descriptor>)

  function At(t: Table, i: nat): Option<Descriptor>
    requires i < 3
  {
    if i == 0 then t.first else if i == 1 then t.second else t.third
  }

  function With(t: Table, i: nat, d: Option<Descriptor>): (u: Table)
    requires i < 3
    ensures At(u, i) == d && forall k: nat :: k < 3 && k != i ==> At(u, k) == At(t, k)
  {
    if i == 0 then t.(first := d) else if i == 1 then t.(second := d) else t.(third := d)
  }

  function FirstFree(t: Table): Option<nat> {
    if t.first.None? then Some(0) else if t.second.None? then Some(1) else if t.third.None? then Some(2) else None
  }

  /** The descriptor a request stands for, by the bits of its flags word: 32-bit is bit 0, contents bits 1
      and 2, not writable bit 3, limit in pages bit 4, not present bit 5, available bit 6. The access byte
      has present, privilege 3, code-or-data, contents and writable; the flags are available, nothing,
      32-bit and limit in pages, from the lowest. None clears the slot. */
  function Wanted(d: UserDesc): Option<Descriptor> {
    if d.base == 0 && d.limit == 0 && d.flags % 2 == 0 && d.flags / 2 % 4 == 0 && d.flags / 8 % 2 == 1
       && d.flags / 16 % 2 == 0 && d.flags / 32 % 2 == 1 && d.flags / 64 % 2 == 0 then None
    else
      var access := 0x80 * (1 - d.flags / 32 % 2) + 0x60 + 0x10 + 4 * (d.flags / 2 % 4) + 2 * (1 - d.flags / 8 % 2);
      Some(Descriptor(d.base, d.limit, access, d.flags / 64 % 2 + 4 * (d.flags % 2) + 8 * (d.flags / 16 % 2)))
  }

  lemma RequestBits(d: UserDesc)
    requires Contents(d) != 3
    ensures IsEmpty(d) <==> Wanted(d) == None
    ensures !IsEmpty(d) ==>
      Wanted(d) == Some(Descriptor(d.base, d.limit, AccessByte(d).value, FlagBits(d)))
  {
  }

  /** -22 for a slot that is not 6, 7 or 8, and for a segment type of 3. */
  function Place(t: Table, d: UserDesc, slot: int): (Table, Outcome) {
    if slot < 0 || slot > 2 || d.flags / 2 % 4 == 3 then (t, Ret(0x1_0000_0000_0000_0000 - 22))
    else (With(t, slot, Wanted(d)), Ret(0))
  }

  /** What set_thread_area is for, without bytes: set or clear one slot; on request the first free. -22
      for a limit of more than 20 bits, -3 when no slot is free. */
  function Apply(t: Table, d: UserDesc): (Table, Outcome) {
    if d.limit > 0xF_FFFF then (t, Ret(0x1_0000_0000_0000_0000 - 22))
    else if d.entryNumber != 0xFFFF_FFFF then Place(t, d, d.entryNumber - 6)
    else match FirstFree(t)
      case None => (t, Ret(0x1_0000_0000_0000_0000 - 3))
      case Some(n) => Place(t, d, n)
  }

  predicate TableMapped(cells: Cells, gdt: U64) {
    gdt + 72 <= MAX_U64 && AllMapped(cells, gdt, 72)
  }

  function Entry(cells: Cells, gdt: U64, slot: nat): (d: seq<Byte>)
    requires TableMapped(cells, gdt) && slot <= TLS_MAX
    ensures |d| == 8
  {
    ReadCells(cells, gdt + slot * 8, 8)
  }

  function Abstract(entry: seq<Byte>): Option<Descriptor>
    requires |entry| == 8
  {
    if entry == ZERO_ENTRY then None else Some(Decode(entry))
  }

  /** The table the bytes of the GDT stand for. */
  function Slots(cells: Cells, gdt: U64): Table
    requires TableMapped(cells, gdt)
  {
    Table(Abstract(Entry(cells, gdt, 6)), Abstract(Entry(cells, gdt, 7)), Abstract(Entry(cells, gdt, 8)))
  }

  /** The request lies outside the nine entries. */
  predicate Away(addr: U64, size: nat, gdt: U64) {
    addr + size <= gdt || gdt + 72 <= addr
  }

  lemma FindFreeFrom(cells: Cells, gdt: U64, slot: nat)
    requires TableMapped(cells, gdt) && slot <= TLS_MAX
    ensures FindFree(cells, gdt, slot) ==
      if Abstract(Entry(cells, gdt, slot)).None? then Slot(slot) else FindFree(cells, gdt, slot + 1)
  {
    assert EntryAddr(gdt, slot) == gdt + slot * 8 && AllMapped(cells, EntryAddr(gdt, slot), 8);
  }

  lemma FindFreeIsFirst(cells: Cells, gdt: U64)
    requires TableMapped(cells, gdt)
    ensures FindFree(cells, gdt, TLS_MIN) ==
      match FirstFree(Slots(cells, gdt)) case None => NoneFree case Some(n) => Slot(n + TLS_MIN)
  {
    FindFreeFrom(cells, gdt, 6);
    FindFreeFrom(cells, gdt, 7);
    FindFreeFrom(cells, gdt, 8);
    assert FindFree(cells, gdt, 9) == NoneFree;
  }

  lemma EntryKept(cells: Cells, gdt: U64, slot: nat, addr: int, data: seq<Byte>)
    requires TableMapped(cells, gdt) && slot <= TLS_MAX
    requires addr + |data| <= gdt + slot * 8 || gdt + slot * 8 + 8 <= addr
    ensures TableMapped(WriteCells(cells, addr, data), gdt)
    ensures Entry(WriteCells(cells, addr, data), gdt, slot) == Entry(cells, gdt, slot)
  {
    WriteKeepsMapped(cells, addr, data, gdt, 72);
  }

  lemma EntryAt(cells: Cells, gdt: U64, slot: nat, p: int)
    requires TableMapped(cells, gdt) && slot <= TLS_MAX && p == gdt + slot * 8
    ensures AllMapped(cells, p, 8) && Entry(cells, gdt, slot) == ReadCells(cells, p, 8)
  {
  }

  lemma EntryWritten(cells: Cells, gdt: U64, slot: nat, p: int, entry: seq<Byte>)
    requires TableMapped(cells, gdt) && slot <= TLS_MAX && |entry| == 8 && p == gdt + slot * 8
    ensures TableMapped(WriteCells(cells, p, entry), gdt)
    ensures Entry(WriteCells(cells, p, entry), gdt, slot) == entry
  {
    WriteKeepsMapped(cells, p, entry, gdt, 72);
    EntryAt(cells, gdt, slot, p);
    EntryAt(WriteCells(cells, p, entry), gdt, slot, p);
    ReadAfterWrite(cells, p, entry);
  }

  lemma SlotAt(cells: Cells, gdt: U64, i: nat)
    requires TableMapped(cells, gdt) && i < 3
    ensures At(Slots(cells, gdt), i) == Abstract(Entry(cells, gdt, i + TLS_MIN))
  {
    if i == 0 {
      assert i + TLS_MIN == 6;
    } else if i == 1 {
      assert i + TLS_MIN == 7;
    } else {
      assert i + TLS_MIN == 8;
    }
  }

  lemma SlotIsClear(cells: Cells, gdt: U64, i: nat)
    requires TableMapped(cells, gdt) && i < 3
    ensures At(Slots(cells, gdt), i).None? <==> Entry(cells, gdt, i + TLS_MIN) == ZERO_ENTRY
  {
    SlotAt(cells, gdt, i);
  }

  lemma FirstFreeIsFirst(t: Table, n: nat)
    requires n < 3 && FirstFree(t) == Some(n)
    ensures At(t, n).None? && forall k: nat :: k < n ==> At(t, k).Some?
  {
  }

  lemma OneSlotChanged(cells: Cells, now: Cells, gdt: U64, slot: nat)
    requires TableMapped(cells, gdt) && TableMapped(now, gdt) && TLS_MIN <= slot <= TLS_MAX
    requires forall k: nat :: k <= TLS_MAX && k != slot ==> Entry(now, gdt, k) == Entry(cells, gdt, k)
    ensures Slots(now, gdt) == With(Slots(cells, gdt), slot - TLS_MIN, Abstract(Entry(now, gdt, slot)))
  {
    assert slot != 6 ==> Entry(now, gdt, 6) == Entry(cells, gdt, 6);
    assert slot != 7 ==> Entry(now, gdt, 7) == Entry(cells, gdt, 7);
    assert slot != 8 ==> Entry(now, gdt, 8) == Entry(cells, gdt, 8);
  }

  lemma WantedIsStored(d: UserDesc)
    requires Contents(d) != 3 && d.limit <= 0xF_FFFF
    ensures Wanted(d) == Abstract(if IsEmpty(d) then ZERO_ENTRY
                                  else GdtDesc(d.base, d.limit, AccessByte(d).value, FlagBits(d)))
  {
    RequestBits(d);
    if !IsEmpty(d) {
      PackedIsNotZero(d);
      DescriptorRoundTrip(d.base, d.limit, AccessByte(d).value, FlagBits(d));
    }
  }

  lemma OtherEntriesKept(cells: Cells, gdt: U64, slot: nat, p: int, entry: seq<Byte>)
    requires TableMapped(cells, gdt) && slot <= TLS_MAX && |entry| == 8 && p == gdt + slot * 8
    ensures TableMapped(WriteCells(cells, p, entry), gdt)
    ensures forall k: nat :: k <= TLS_MAX && k != slot ==>
      Entry(WriteCells(cells, p, entry), gdt, k) == Entry(cells, gdt, k)
  {
    EntryWritten(cells, gdt, slot, p, entry);
    forall k: nat | k <= TLS_MAX && k != slot
      ensures Entry(WriteCells(cells, p, entry), gdt, k) == Entry(cells, gdt, k)
    {
      EntryKept(cells, gdt, k, p, entry);
    }
  }

  lemma WriteEntryIs(cells: Cells, gdt: U64, slot: nat, entry: seq<Byte>)
    requires TableMapped(cells, gdt) && slot <= TLS_MAX && |entry| == 8
    ensures WriteEntry(cells, gdt, slot, entry) == (WriteCells(cells, gdt + slot * 8, entry), Ret(0))
  {
    assert AllMapped(cells, EntryAddr(gdt, slot), 8);
  }

  lemma SlotWritten(cells: Cells, gdt: U64, slot: nat, p: int, entry: seq<Byte>)
    requires TableMapped(cells, gdt) && TLS_MIN <= slot <= TLS_MAX && |entry| == 8 && p == gdt + slot * 8
    ensures TableMapped(WriteCells(cells, p, entry), gdt)
    ensures Slots(WriteCells(cells, p, entry), gdt) == With(Slots(cells, gdt), slot - TLS_MIN, Abstract(entry))
  {
    OtherEntriesKept(cells, gdt, slot, p, entry);
    EntryWritten(cells, gdt, slot, p, entry);
    OneSlotChanged(cells, WriteCells(cells, p, entry), gdt, slot);
  }

  /** Writing one entry changes that slot of the table and no other entry. */
  lemma WriteEntryRefines(cells: Cells, gdt: U64, slot: nat, entry: seq<Byte>)
    requires TableMapped(cells, gdt) && TLS_MIN <= slot <= TLS_MAX && |entry| == 8
    ensures var r := WriteEntry(cells, gdt, slot, entry);
      && r.1 == Ret(0) && r.0 == WriteCells(cells, gdt + slot * 8, entry) && TableMapped(r.0, gdt)
      && Slots(r.0, gdt) == With(Slots(cells, gdt), slot - TLS_MIN, Abstract(entry))
      && (forall k: nat :: k < TLS_MIN ==> Entry(r.0, gdt, k) == Entry(cells, gdt, k))
  {
    WriteEntryIs(cells, gdt, slot, entry);
    SlotWritten(cells, gdt, slot, gdt + slot * 8, entry);
    OtherEntriesKept(cells, gdt, slot, gdt + slot * 8, entry);
  }

  lemma WriteBackRefines(cells: Cells, gdt: U64, addr: U64, slot: nat)
    requires TableMapped(cells, gdt) && Away(addr, 4, gdt)
    ensures TableMapped(WriteCells(cells, addr, ToLE(slot, 4)), gdt)
    ensures Slots(WriteCells(cells, addr, ToLE(slot, 4)), gdt) == Slots(cells, gdt)
    ensures forall k: nat :: k <= TLS_MAX ==>
      Entry(WriteCells(cells, addr, ToLE(slot, 4)), gdt, k) == Entry(cells, gdt, k)
  {
    WriteKeepsMapped(cells, addr, ToLE(slot, 4), gdt, 72);
    forall k: nat | k <= TLS_MAX
      ensures Entry(WriteCells(cells, addr, ToLE(slot, 4)), gdt, k) == Entry(cells, gdt, k)
    {
      EntryKept(cells, gdt, k, addr, ToLE(slot, 4));
    }
  }

  lemma InstallRefines(cells: Cells, gdt: U64, addr: U64, d: UserDesc, slot: nat)
    requires TableMapped(cells, gdt) && d.limit <= 0xF_FFFF
    requires Away(addr, 4, gdt) || WriteCells(cells, addr, ToLE(slot, 4)) == cells
    ensures var r := Install(cells, gdt, addr, d, slot);
      && TableMapped(r.0, gdt)
      && (Slots(r.0, gdt), r.1) == Place(Slots(cells, gdt), d, slot - TLS_MIN)
      && (forall k: nat :: k < TLS_MIN ==> Entry(r.0, gdt, k) == Entry(cells, gdt, k))
  {
    if TLS_MIN <= slot <= TLS_MAX && Contents(d) != 3 {
      if Away(addr, 4, gdt) {
        WriteBackRefines(cells, gdt, addr, slot);
      }
      var entry := if IsEmpty(d) then ZERO_ENTRY else GdtDesc(d.base, d.limit, AccessByte(d).value, FlagBits(d));
      WriteEntryRefines(WriteCells(cells, addr, ToLE(slot, 4)), gdt, slot, entry);
      WantedIsStored(d);
    }
  }

  /** A call has done to the bytes what Apply does to the slots, and left the first six descriptors
      alone. */
  ghost predicate Refined(cells: Cells, now: Cells, gdt: U64, d: UserDesc, r: Outcome)
    requires TableMapped(cells, gdt) && TableMapped(now, gdt)
  {
    && (Slots(now, gdt), r) == Apply(Slots(cells, gdt), d)
    && (forall k: nat :: k < TLS_MIN ==> Entry(now, gdt, k) == Entry(cells, gdt, k))
  }

  lemma RequestBytes(cells: Cells, addr: U64)
    requires AllMapped(cells, addr, 16)
    ensures ReadCells(cells, addr, 4) == ToLE(DescOf(ReadCells(cells, addr, 16)).entryNumber, 4)
  {
    var bytes := ReadCells(cells, addr, 16);
    BytesRoundTrip(bytes[0..4]);
    assert ReadCells(cells, addr, 4) == bytes[0..4];
  }

  lemma WriteSame(cells: Cells, addr: U64, data: seq<Byte>)
    requires AllMapped(cells, addr, |data|) && ReadCells(cells, addr, |data|) == data
    ensures WriteCells(cells, addr, data) == cells
  {
    forall a | a in cells ensures WriteCells(cells, addr, data)[a] == cells[a] {
      if addr <= a < addr + |data| {
        assert data[a - addr] == cells[addr + (a - addr)].byte;
      }
    }
  }

  lemma DigitsUnique(a: int, m: int, b: int, n: int)
    requires 0 <= a < 0x100 && 0 <= b < 0x100 && a + 0x100 * m == b + 0x100 * n
    ensures a == b && m == n
  {
  }

  lemma BaseUnique(a0: int, a1: int, a2: int, a3: int, b0: int, b1: int, b2: int, b3: int)
    requires 0 <= a0 < 0x100 && 0 <= a1 < 0x100 && 0 <= a2 < 0x100
    requires 0 <= b0 < 0x100 && 0 <= b1 < 0x100 && 0 <= b2 < 0x100
    requires a0 + 0x100 * a1 + 0x1_0000 * a2 + 0x100_0000 * a3 == b0 + 0x100 * b1 + 0x1_0000 * b2 + 0x100_0000 * b3
    ensures a0 == b0 && a1 == b1 && a2 == b2 && a3 == b3
  {
    DigitsUnique(a0, a1 + 0x100 * a2 + 0x1_0000 * a3, b0, b1 + 0x100 * b2 + 0x1_0000 * b3);
    DigitsUnique(a1, a2 + 0x100 * a3, b1, b2 + 0x100 * b3);
    DigitsUnique(a2, a3, b2, b3);
  }

  lemma DecodeInjective(d: seq<Byte>, e: seq<Byte>)
    requires |d| == |e| == 8 && Decode(d) == Decode(e)
    ensures d == e
  {
    BaseUnique(d[2], d[3], d[4], d[7], e[2], e[3], e[4], e[7]);
    BaseUnique(d[0], d[1], d[6] % 0x10, 0, e[0], e[1], e[6] % 0x10, 0);
    assert d[6] == e[6];
  }

  lemma DifferentEntries(d: seq<Byte>, e: seq<Byte>)
    requires |d| == |e| == 8 && d != e
    ensures Abstract(d) != Abstract(e)
  {
    if Decode(d) == Decode(e) {
      DecodeInjective(d, e);
    }
  }

  predicate AllOnes(cells: Cells, addr: int) {
    forall a :: addr <= a < addr + 4 ==> a in cells && cells[a].byte == 0xFF
  }

  lemma AutoIsOnes(cells: Cells, addr: int)
    requires AllMapped(cells, addr, 4) && ReadCells(cells, addr, 4) == ToLE(AUTO, 4)
    ensures AllOnes(cells, addr)
  {
    assert ToLE(AUTO, 4) == [0xFF, 0xFF, 0xFF, 0xFF];
    forall a | addr <= a < addr + 4 ensures cells[a].byte == 0xFF {
      assert ReadCells(cells, addr, 4)[a - addr] == cells[addr + (a - addr)].byte;
    }
  }

  lemma SlotBytes(slot: nat)
    requires slot <= TLS_MAX
    ensures ToLE(slot, 4) == [slot, 0, 0, 0]
  {
    assert ToLE(0, 2) == [0, 0];
    assert ToLE(slot, 4) == [slot] + ToLE(0, 3);
  }

  /** A byte that an automatic request and the table have in common. */
  lemma CommonByte(gdt: U64, addr: U64) returns (k: nat, j: nat)
    requires !Away(addr, 4, gdt)
    ensures k <= TLS_MAX && j < 8 && addr <= gdt + k * 8 + j < addr + 4
  {
    var at: int := if addr < gdt then 0 else addr - gdt;
    k, j := at / 8, at % 8;
    assert at == k * 8 + j && at < 72;
    assert addr <= gdt + at < addr + 4;
  }

  lemma EntryByte(cells: Cells, gdt: U64, k: nat, j: nat)
    requires TableMapped(cells, gdt) && k <= TLS_MAX && j < 8
    ensures gdt + k * 8 + j in cells && Entry(cells, gdt, k)[j] == cells[gdt + k * 8 + j].byte
  {
  }

  /** The number written back to an automatic request that lies in the table changes a descriptor the
      call is not about. */
  lemma WriteBackSpoils(cells: Cells, gdt: U64, addr: U64, slot: nat, entry: seq<Byte>, k: nat, j: nat)
    requires TableMapped(cells, gdt) && TLS_MIN <= slot <= TLS_MAX && |entry| == 8 && AllOnes(cells, addr)
    requires k <= TLS_MAX && j < 8 && addr <= gdt + k * 8 + j < addr + 4 && k != slot
    ensures var now := WriteCells(WriteCells(cells, addr, ToLE(slot, 4)), gdt + slot * 8, entry);
      TableMapped(now, gdt) && Entry(now, gdt, k) != Entry(cells, gdt, k)
  {
    var told := WriteCells(cells, addr, ToLE(slot, 4));
    var now := WriteCells(told, gdt + slot * 8, entry);
    var a := gdt + k * 8 + j;
    WriteKeepsMapped(cells, addr, ToLE(slot, 4), gdt, 72);
    WriteKeepsMapped(told, gdt + slot * 8, entry, gdt, 72);
    EntryByte(cells, gdt, k, j);
    EntryByte(now, gdt, k, j);
    SlotBytes(slot);
    assert cells[a].byte == 0xFF && told[a].byte == ToLE(slot, 4)[a - addr];
    assert now[a] == told[a];
  }

  lemma OtherSlotChanged(t: Table, u: Table, d: UserDesc, r: Outcome, n: nat, i: nat)
    requires n < 3 && FirstFree(t) == Some(n) && d.entryNumber == AUTO
    requires i < 3 && i != n && At(u, i) != At(t, i)
    ensures (u, r) != Apply(t, d)
  {
    assert At(Apply(t, d).0, i) == At(t, i);
  }

  lemma SlotChanged(cells: Cells, now: Cells, gdt: U64, i: nat)
    requires TableMapped(cells, gdt) && TableMapped(now, gdt) && i < 3
    requires Entry(now, gdt, i + TLS_MIN) != Entry(cells, gdt, i + TLS_MIN)
    ensures At(Slots(now, gdt), i) != At(Slots(cells, gdt), i)
  {
    SlotAt(cells, gdt, i);
    SlotAt(now, gdt, i);
    DifferentEntries(Entry(now, gdt, i + TLS_MIN), Entry(cells, gdt, i + TLS_MIN));
  }

  lemma OtherEntryChanged(cells: Cells, now: Cells, gdt: U64, d: UserDesc, r: Outcome, n: nat, k: nat)
    requires TableMapped(cells, gdt) && TableMapped(now, gdt) && k <= TLS_MAX && k != n + TLS_MIN
    requires n < 3 && FirstFree(Slots(cells, gdt)) == Some(n) && d.entryNumber == AUTO
    requires Entry(now, gdt, k) != Entry(cells, gdt, k)
    ensures !Refined(cells, now, gdt, d, r)
  {
    if k >= TLS_MIN {
      SlotChanged(cells, now, gdt, k - TLS_MIN);
      OtherSlotChanged(Slots(cells, gdt), Slots(now, gdt), d, r, n, k - TLS_MIN);
    }
  }

  lemma InstallIs(cells: Cells, gdt: U64, addr: U64, d: UserDesc, slot: nat) returns (entry: seq<Byte>)
    requires TableMapped(cells, gdt) && TLS_MIN <= slot <= TLS_MAX && Contents(d) != 3
    ensures |entry| == 8
    ensures entry == if IsEmpty(d) then ZERO_ENTRY else GdtDesc(d.base, d.limit, AccessByte(d).value, FlagBits(d))
    ensures Install(cells, gdt, addr, d, slot)
         == (WriteCells(WriteCells(cells, addr, ToLE(slot, 4)), gdt + slot * 8, entry), Ret(0))
  {
    entry := if IsEmpty(d) then ZERO_ENTRY else GdtDesc(d.base, d.limit, AccessByte(d).value, FlagBits(d));
    WriteKeepsMapped(cells, addr, ToLE(slot, 4), gdt, 72);
    WriteEntryRefines(WriteCells(cells, addr, ToLE(slot, 4)), gdt, slot, entry);
  }

  /** A word written outside an entry is still there when the entry has been written. */
  lemma WordSurvives(cells: Cells, addr: U64, slot: nat, p: int, entry: seq<Byte>)
    requires slot <= TLS_MAX && AllMapped(cells, addr, 4) && (p + |entry| <= addr || addr + 4 <= p)
    ensures Word(WriteCells(WriteCells(cells, addr, ToLE(slot, 4)), p, entry), addr, 4) == Some(slot)
  {
    var told := WriteCells(cells, addr, ToLE(slot, 4));
    HoldsWritten(cells, addr, ToLE(slot, 4));
    HoldsElsewhere(told, addr, ToLE(slot, 4), p, entry);
    assert Pow256(4) == 0x1_0000_0000;
    WordOf(WriteCells(told, p, entry), addr, slot, 4);
  }

  /** The guest finds the number of its slot where it asked. */
  lemma SlotIsToldBack(cells: Cells, gdt: U64, addr: U64, d: UserDesc, slot: nat)
    requires TableMapped(cells, gdt) && Away(addr, 4, gdt) && AllMapped(cells, addr, 4)
    requires TLS_MIN <= slot <= TLS_MAX && Contents(d) != 3
    ensures Install(cells, gdt, addr, d, slot).1 == Ret(0)
    ensures Word(Install(cells, gdt, addr, d, slot).0, addr, 4) == Some(slot)
  {
    var entry := InstallIs(cells, gdt, addr, d, slot);
    WordSurvives(cells, addr, slot, gdt + slot * 8, entry);
  }

  lemma FreeSlotIsZero(cells: Cells, gdt: U64, n: nat)
    requires TableMapped(cells, gdt) && n < 3 && FirstFree(Slots(cells, gdt)) == Some(n)
    ensures Entry(cells, gdt, n + TLS_MIN) == ZERO_ENTRY
  {
    FirstFreeIsFirst(Slots(cells, gdt), n);
    SlotIsClear(cells, gdt, n);
  }

  lemma InsideIsNotRefined(cells: Cells, gdt: U64, addr: U64, d: UserDesc, n: nat)
    requires TableMapped(cells, gdt) && AllOnes(cells, addr) && !Away(addr, 4, gdt) && d.entryNumber == AUTO
    requires n < 3 && FirstFree(Slots(cells, gdt)) == Some(n) && Contents(d) != 3
    ensures var r := Install(cells, gdt, addr, d, n + TLS_MIN);
      TableMapped(r.0, gdt) && !Refined(cells, r.0, gdt, d, r.1)
  {
    FreeSlotIsZero(cells, gdt, n);
    var entry := InstallIs(cells, gdt, addr, d, n + TLS_MIN);
    var k := SpoiledEntry(cells, gdt, addr, n + TLS_MIN, entry);
    var r := Install(cells, gdt, addr, d, n + TLS_MIN);
    OtherEntryChanged(cells, r.0, gdt, d, r.1, n, k);
  }

  lemma SpoiledEntry(cells: Cells, gdt: U64, addr: U64, slot: nat, entry: seq<Byte>) returns (k: nat)
    requires TableMapped(cells, gdt) && TLS_MIN <= slot <= TLS_MAX && |entry| == 8
    requires AllOnes(cells, addr) && !Away(addr, 4, gdt) && Entry(cells, gdt, slot) == ZERO_ENTRY
    ensures var now := WriteCells(WriteCells(cells, addr, ToLE(slot, 4)), gdt + slot * 8, entry);
      k <= TLS_MAX && k != slot && TableMapped(now, gdt) && Entry(now, gdt, k) != Entry(cells, gdt, k)
  {
    var j;
    k, j := CommonByte(gdt, addr);
    EntryByte(cells, gdt, k, j);
    WriteBackSpoils(cells, gdt, addr, slot, entry, k, j);
  }

  /** Writing back the number the request had already changes nothing. */
  lemma ExplicitWriteBack(cells: Cells, addr: U64, d: UserDesc)
    requires AllMapped(cells, addr, 16) && d == DescOf(ReadCells(cells, addr, 16))
    ensures WriteCells(cells, addr, ToLE(d.entryNumber, 4)) == cells
  {
    RequestBytes(cells, addr);
    WriteSame(cells, addr, ToLE(d.entryNumber, 4));
  }

  lemma PlacedIsRefined(cells: Cells, now: Cells, gdt: U64, d: UserDesc, r: Outcome)
    requires TableMapped(cells, gdt) && TableMapped(now, gdt) && d.limit <= 0xF_FFFF && d.entryNumber != AUTO
    requires (Slots(now, gdt), r) == Place(Slots(cells, gdt), d, d.entryNumber - TLS_MIN)
    requires forall k: nat :: k < TLS_MIN ==> Entry(now, gdt, k) == Entry(cells, gdt, k)
    ensures Refined(cells, now, gdt, d, r)
  {
  }

  lemma RefusedRefines(cells: Cells, gdt: U64, addr: U64, d: UserDesc)
    requires TableMapped(cells, gdt) && addr != 0 && AllMapped(cells, addr, 16)
    requires d == DescOf(ReadCells(cells, addr, 16)) && d.limit > 0xF_FFFF
    ensures ThreadAreaStep(cells, gdt, true, addr) == (cells, Fail(EINVAL))
    ensures Refined(cells, cells, gdt, d, Fail(EINVAL))
  {
  }

  lemma ExplicitStep(cells: Cells, gdt: U64, addr: U64, d: UserDesc)
    requires addr != 0 && AllMapped(cells, addr, 16) && d == DescOf(ReadCells(cells, addr, 16))
    requires d.limit <= 0xF_FFFF && d.entryNumber != AUTO
    ensures ThreadAreaStep(cells, gdt, true, addr) == Install(cells, gdt, addr, d, d.entryNumber)
  {
  }

  lemma ExplicitRefines(cells: Cells, gdt: U64, addr: U64, d: UserDesc)
    requires TableMapped(cells, gdt) && addr != 0 && AllMapped(cells, addr, 16)
    requires d == DescOf(ReadCells(cells, addr, 16)) && d.limit <= 0xF_FFFF && d.entryNumber != AUTO
    ensures var r := ThreadAreaStep(cells, gdt, true, addr);
      TableMapped(r.0, gdt) && Refined(cells, r.0, gdt, d, r.1)
  {
    var r := Install(cells, gdt, addr, d, d.entryNumber);
    ExplicitWriteBack(cells, addr, d);
    ExplicitStep(cells, gdt, addr, d);
    InstallRefines(cells, gdt, addr, d, d.entryNumber);
    PlacedIsRefined(cells, r.0, gdt, d, r.1);
  }

  lemma AutoStep(cells: Cells, gdt: U64, addr: U64, d: UserDesc)
    requires TableMapped(cells, gdt) && addr != 0 && AllMapped(cells, addr, 16)
    requires d == DescOf(ReadCells(cells, addr, 16)) && d.limit <= 0xF_FFFF && d.entryNumber == AUTO
    ensures ThreadAreaStep(cells, gdt, true, addr) ==
      match FirstFree(Slots(cells, gdt))
      case None => (cells, Fail(ESRCH))
      case Some(n) => Install(cells, gdt, addr, d, n + TLS_MIN)
  {
    FindFreeIsFirst(cells, gdt);
  }

  lemma AutoApplied(t: Table, d: UserDesc)
    requires d.limit <= 0xF_FFFF && d.entryNumber == AUTO
    ensures Apply(t, d) == match FirstFree(t) case None => (t, Fail(ESRCH)) case Some(n) => Place(t, d, n)
  {
  }

  lemma AutoAway(cells: Cells, gdt: U64, addr: U64, d: UserDesc, n: nat)
    requires TableMapped(cells, gdt) && d.limit <= 0xF_FFFF && d.entryNumber == AUTO
    requires FirstFree(Slots(cells, gdt)) == Some(n) && (Away(addr, 4, gdt) || Contents(d) == 3)
    ensures var r := Install(cells, gdt, addr, d, n + TLS_MIN);
      TableMapped(r.0, gdt) && Refined(cells, r.0, gdt, d, r.1)
  {
    AutoApplied(Slots(cells, gdt), d);
    if Contents(d) != 3 {
      InstallRefines(cells, gdt, addr, d, n + TLS_MIN);
    }
  }

  lemma AutoRefines(cells: Cells, gdt: U64, addr: U64, d: UserDesc)
    requires TableMapped(cells, gdt) && addr != 0 && AllMapped(cells, addr, 16)
    requires d == DescOf(ReadCells(cells, addr, 16)) && d.limit <= 0xF_FFFF && d.entryNumber == AUTO
    ensures var r := ThreadAreaStep(cells, gdt, true, addr);
      && TableMapped(r.0, gdt)
      && (Refined(cells, r.0, gdt, d, r.1) <==>
            (FirstFree(Slots(cells, gdt)).Some? && Contents(d) != 3 ==> Away(addr, 4, gdt)))
  {
    AutoStep(cells, gdt, addr, d);
    if FirstFree(Slots(cells, gdt)).None? {
      AutoFull(cells, gdt, d);
    } else if Away(addr, 4, gdt) || Contents(d) == 3 {
      AutoAway(cells, gdt, addr, d, FirstFree(Slots(cells, gdt)).value);
    } else {
      RequestBytes(cells, addr);
      AutoIsOnes(cells, addr);
      InsideIsNotRefined(cells, gdt, addr, d, FirstFree(Slots(cells, gdt)).value);
    }
  }

  lemma AutoFull(cells: Cells, gdt: U64, d: UserDesc)
    requires TableMapped(cells, gdt) && d.limit <= 0xF_FFFF && d.entryNumber == AUTO
    requires FirstFree(Slots(cells, gdt)) == None
    ensures Refined(cells, cells, gdt, d, Fail(ESRCH))
  {
    AutoApplied(Slots(cells, gdt), d);
  }

  predicate IsClear(cells: Cells, gdt: U64, slot: nat)
    requires TableMapped(cells, gdt) && slot <= TLS_MAX
  {
    Entry(cells, gdt, slot) == [0, 0, 0, 0, 0, 0, 0, 0]
  }

  /** Some of the three automatic slots is all zeros. */
  predicate SomeClear(cells: Cells, gdt: U64)
    requires TableMapped(cells, gdt)
  {
    IsClear(cells, gdt, 6) || IsClear(cells, gdt, 7) || IsClear(cells, gdt, 8)
  }

  lemma SomeClearIsFree(cells: Cells, gdt: U64)
    requires TableMapped(cells, gdt)
    ensures SomeClear(cells, gdt) <==> FirstFree(Slots(cells, gdt)).Some?
  {
    SlotIsClear(cells, gdt, 0);
    SlotIsClear(cells, gdt, 1);
    SlotIsClear(cells, gdt, 2);
  }

  /** An automatic request that can be granted: a limit that fits, a segment type there is, a free slot. */
  predicate Grantable(cells: Cells, gdt: U64, d: UserDesc)
    requires TableMapped(cells, gdt)
  {
    d.entryNumber == 0xFFFF_FFFF && d.limit <= 0xF_FFFF && d.flags / 2 % 4 != 3 && SomeClear(cells, gdt)
  }

  /** One call does to the bytes of the table what Apply does to its slots exactly when it is not an
      automatic request that can be granted and itself lies in the table. */
  lemma StepRefines(cells: Cells, gdt: U64, addr: U64)
    requires TableMapped(cells, gdt) && addr != 0 && AllMapped(cells, addr, 16)
    ensures var r, d := ThreadAreaStep(cells, gdt, true, addr), DescOf(ReadCells(cells, addr, 16));
      && TableMapped(r.0, gdt)
      && (Refined(cells, r.0, gdt, d, r.1) <==> (Grantable(cells, gdt, d) ==> Away(addr, 4, gdt)))
  {
    var d := DescOf(ReadCells(cells, addr, 16));
    if d.limit > 0xF_FFFF {
      RefusedRefines(cells, gdt, addr, d);
    } else if d.entryNumber != AUTO {
      ExplicitRefines(cells, gdt, addr, d);
    } else {
      AutoRefines(cells, gdt, addr, d);
      SomeClearIsFree(cells, gdt);
    }
  }

  lemma LowerSlotsAreSet(cells: Cells, gdt: U64, n: nat)
    requires TableMapped(cells, gdt) && n < 3 && FirstFree(Slots(cells, gdt)) == Some(n)
    ensures IsClear(cells, gdt, n + TLS_MIN)
    ensures forall k: nat :: TLS_MIN <= k < n + TLS_MIN ==> !IsClear(cells, gdt, k)
  {
    FirstFreeIsFirst(Slots(cells, gdt), n);
    SlotIsClear(cells, gdt, n);
    forall k: nat | TLS_MIN <= k < n + TLS_MIN ensures !IsClear(cells, gdt, k) {
      SlotIsClear(cells, gdt, k - TLS_MIN);
    }
  }

  /** An automatic request that is granted, from outside the table, takes the lowest slot that is all
      zeros, never one that is set; the guest finds its number where it asked, and the table has the
      descriptor asked for in it. */
  lemma AutoTakesLowestFree(cells: Cells, gdt: U64, addr: U64) returns (slot: nat)
    requires TableMapped(cells, gdt) && addr != 0 && AllMapped(cells, addr, 16) && Away(addr, 4, gdt)
    requires DescOf(ReadCells(cells, addr, 16)).entryNumber == AUTO
    requires ThreadAreaStep(cells, gdt, true, addr).1 == Ret(0)
    ensures TLS_MIN <= slot <= TLS_MAX && IsClear(cells, gdt, slot)
    ensures forall k: nat :: TLS_MIN <= k < slot ==> !IsClear(cells, gdt, k)
    ensures Contents(DescOf(ReadCells(cells, addr, 16))) != 3
    ensures var now := ThreadAreaStep(cells, gdt, true, addr).0;
      && Word(now, addr, 4) == Some(slot) && TableMapped(now, gdt)
      && Slots(now, gdt) == With(Slots(cells, gdt), slot - TLS_MIN, Wanted(DescOf(ReadCells(cells, addr, 16))))
  {
    var d := DescOf(ReadCells(cells, addr, 16));
    var n := AutoGranted(cells, gdt, addr, d);
    slot := n + TLS_MIN;
    LowerSlotsAreSet(cells, gdt, n);
    SlotIsToldBack(cells, gdt, addr, d, slot);
    InstallRefines(cells, gdt, addr, d, slot);
  }

  lemma AutoGranted(cells: Cells, gdt: U64, addr: U64, d: UserDesc) returns (n: nat)
    requires TableMapped(cells, gdt) && addr != 0 && AllMapped(cells, addr, 16)
    requires d == DescOf(ReadCells(cells, addr, 16)) && d.entryNumber == AUTO
    requires ThreadAreaStep(cells, gdt, true, addr).1 == Ret(0)
    ensures d.limit <= 0xF_FFFF && Contents(d) != 3 && n < 3 && FirstFree(Slots(cells, gdt)) == Some(n)
    ensures ThreadAreaStep(cells, gdt, true, addr) == Install(cells, gdt, addr, d, n + TLS_MIN)
  {
    assert NegErrno(EINVAL) != 0 && NegErrno(ESRCH) != 0;
    AutoStep(cells, gdt, addr, d);
    n := FirstFree(Slots(cells, gdt)).value;
  }

  // ---- in the bytes of guest memory

  function Little(cells: Cells, addr: int): nat
    requires AllMapped(cells, addr, 4)
  {
    cells[addr].byte + 0x100 * cells[addr + 1].byte
    + 0x1_0000 * cells[addr + 2].byte + 0x100_0000 * cells[addr + 3].byte
  }

  /** The four words of a request, lowest address first. */
  lemma RequestFields(cells: Cells, addr: U64)
    requires AllMapped(cells, addr, 16)
    ensures var d := DescOf(ReadCells(cells, addr, 16));
      && d.entryNumber == Little(cells, addr) && d.base == Little(cells, addr + 4)
      && d.limit == Little(cells, addr + 8) && d.flags == Little(cells, addr + 12)
  {
    var bytes := ReadCells(cells, addr, 16);
    FourBytes(bytes[0..4]);
    FourBytes(bytes[4..8]);
    FourBytes(bytes[8..12]);
    FourBytes(bytes[12..16]);
  }

  /** The eight bytes of a segment descriptor, position by position (section 3.4.5 of volume 3A of the Intel
      Software Developer's Manual): limit, base, present, privilege level 3, code or data, type, then
      available, no 64-bit code, default size and granularity, with the bits of the request's flags. */
  predicate SegmentBytes(d: seq<Byte>, base: nat, limit: nat, flags: nat)
    requires |d| == 8
  {
    && d[0] as int + 0x100 * d[1] as int + 0x1_0000 * (d[6] as int % 16) == limit
    && d[2] as int + 0x100 * d[3] as int + 0x1_0000 * d[4] as int + 0x100_0000 * d[7] as int == base
    && d[5] / 128 == 1 - flags / 32 % 2 && d[5] / 32 % 4 == 3 && d[5] / 16 % 2 == 1
    && d[5] / 4 % 4 == flags / 2 % 4 && d[5] / 2 % 2 == 1 - flags / 8 % 2 && d[5] % 2 == 0
    && d[6] / 16 % 2 == flags / 64 % 2 && d[6] / 32 % 2 == 0
    && d[6] / 64 % 2 == flags % 2 && d[6] / 128 == flags / 16 % 2
  }

  /** A request to clear: base and limit 0, and of the flags just not writable and not present. */
  predicate ClearsSlot(base: nat, limit: nat, flags: nat) {
    && base == 0 && limit == 0 && flags % 2 == 0 && flags / 2 % 4 == 0 && flags / 8 % 2 == 1
    && flags / 16 % 2 == 0 && flags / 32 % 2 == 1 && flags / 64 % 2 == 0
  }

  lemma AccessBits(present: nat, contents: nat, writable: nat)
    requires present < 2 && contents < 4 && writable < 2
    ensures var a := 0x80 * present + 0x60 + 0x10 + 4 * contents + 2 * writable;
      && a / 128 == present && a / 32 % 4 == 3 && a / 16 % 2 == 1 && a / 4 % 4 == contents
      && a / 2 % 2 == writable && a % 2 == 0
  {
  }

  lemma SizeBits(high: nat, available: nat, is32: nat, inPages: nat)
    requires high < 16 && available < 2 && is32 < 2 && inPages < 2
    ensures var b := high + 16 * (available + 4 * is32 + 8 * inPages);
      && b % 16 == high && b / 16 % 2 == available && b / 32 % 2 == 0 && b / 64 % 2 == is32 && b / 128 == inPages
  {
  }

  lemma PackedBytes(d: UserDesc)
    requires Contents(d) != 3 && d.limit <= 0xF_FFFF && !IsEmpty(d)
    ensures SegmentBytes(GdtDesc(d.base, d.limit, AccessByte(d).value, FlagBits(d)), d.base, d.limit, d.flags)
  {
    RequestBits(d);
    DescriptorRoundTrip(d.base, d.limit, AccessByte(d).value, FlagBits(d));
    AccessBits(1 - d.flags / 32 % 2, d.flags / 2 % 4, 1 - d.flags / 8 % 2);
    SizeBits(d.limit / 0x1_0000 % 0x10, d.flags / 64 % 2, d.flags % 2, d.flags / 16 % 2);
  }

  /** A call that is answered with 0 has chosen one of the slots 6 to 8: the one asked for, or with -1 the
      lowest that was all zeros. Its eight bytes are then the descriptor that the four words of the request
      stand for, or zeros if they ask to clear it. */
  lemma AreaIsSet(cells: Cells, gdt: U64, addr: U64) returns (slot: nat)
    requires TableMapped(cells, gdt) && addr != 0 && AllMapped(cells, addr, 16)
    requires ThreadAreaStep(cells, gdt, true, addr).1 == Ret(0)
    ensures 6 <= slot <= 8
    ensures if Little(cells, addr) != 0xFFFF_FFFF then slot == Little(cells, addr)
            else IsClear(cells, gdt, slot) && forall k: nat :: 6 <= k < slot ==> !IsClear(cells, gdt, k)
    ensures var base, limit, flags := Little(cells, addr + 4), Little(cells, addr + 8), Little(cells, addr + 12);
      var now := ThreadAreaStep(cells, gdt, true, addr).0;
      && limit <= 0xF_FFFF && flags / 2 % 4 != 3 && TableMapped(now, gdt)
      && if ClearsSlot(base, limit, flags) then Entry(now, gdt, slot) == [0, 0, 0, 0, 0, 0, 0, 0]
         else SegmentBytes(Entry(now, gdt, slot), base, limit, flags)
  {
    var d := DescOf(ReadCells(cells, addr, 16));
    RequestFields(cells, addr);
    slot := ChosenSlot(cells, gdt, addr, d);
    InstalledBytes(cells, gdt, addr, d, slot);
  }

  lemma ChosenSlot(cells: Cells, gdt: U64, addr: U64, d: UserDesc) returns (slot: nat)
    requires TableMapped(cells, gdt) && addr != 0 && AllMapped(cells, addr, 16)
    requires d == DescOf(ReadCells(cells, addr, 16)) && ThreadAreaStep(cells, gdt, true, addr).1 == Ret(0)
    ensures TLS_MIN <= slot <= TLS_MAX && d.limit <= 0xF_FFFF && Contents(d) != 3
    ensures ThreadAreaStep(cells, gdt, true, addr) == Install(cells, gdt, addr, d, slot)
    ensures if d.entryNumber != 0xFFFF_FFFF then slot == d.entryNumber
            else IsClear(cells, gdt, slot) && forall k: nat :: 6 <= k < slot ==> !IsClear(cells, gdt, k)
  {
    assert NegErrno(EINVAL) != 0 && NegErrno(ESRCH) != 0;
    if d.entryNumber == AUTO {
      var n := AutoGranted(cells, gdt, addr, d);
      slot := n + TLS_MIN;
      LowerSlotsAreSet(cells, gdt, n);
    } else {
      slot := d.entryNumber;
    }
  }

  lemma EntryBytes(d: UserDesc, entry: seq<Byte>)
    requires d.limit <= 0xF_FFFF && Contents(d) != 3
    requires entry == if IsEmpty(d) then ZERO_ENTRY else GdtDesc(d.base, d.limit, AccessByte(d).value, FlagBits(d))
    ensures |entry| == 8
    ensures if ClearsSlot(d.base, d.limit, d.flags) then entry == [0, 0, 0, 0, 0, 0, 0, 0]
            else SegmentBytes(entry, d.base, d.limit, d.flags)
  {
    RequestBits(d);
    if !IsEmpty(d) {
      PackedBytes(d);
    }
  }

  lemma InstalledBytes(cells: Cells, gdt: U64, addr: U64, d: UserDesc, slot: nat)
    requires TableMapped(cells, gdt) && AllMapped(cells, addr, 16)
    requires TLS_MIN <= slot <= TLS_MAX && d.limit <= 0xF_FFFF && Contents(d) != 3
    ensures var now := Install(cells, gdt, addr, d, slot).0;
      && TableMapped(now, gdt)
      && if ClearsSlot(d.base, d.limit, d.flags) then Entry(now, gdt, slot) == [0, 0, 0, 0, 0, 0, 0, 0]
         else SegmentBytes(Entry(now, gdt, slot), d.base, d.limit, d.flags)
  {
    var told := WriteCells(cells, addr, ToLE(slot, 4));
    var entry := InstallIs(cells, gdt, addr, d, slot);
    EntryBytes(d, entry);
    WriteKeepsMapped(cells, addr, ToLE(slot, 4), gdt, 72);
    EntryWritten(told, gdt, slot, gdt + slot * 8, entry);
  }

  /** The refusals in their order: -38 off i386, -14 for a null pointer, a failure inside the emulator for
      memory that is not there. */
  lemma AreaRefusals(cells: Cells, gdt: U64, is32: bool, addr: U64)
    ensures !is32 ==> ThreadAreaStep(cells, gdt, is32, addr) == (cells, Ret(0x1_0000_0000_0000_0000 - 38))
    ensures is32 && addr == 0 ==> ThreadAreaStep(cells, gdt, is32, addr) == (cells, Ret(0x1_0000_0000_0000_0000 - 14))
    ensures is32 && addr != 0 && !AllMapped(cells, addr, 16) ==>
      ThreadAreaStep(cells, gdt, is32, addr) == (cells, Fault)
  {
  }

  // ---- whole runs

  /** A request the guest writes somewhere and then asks for. */
  datatype Request = Request(addr: U64, desc: UserDesc)

  function Laid(d: UserDesc): (bytes: seq<Byte>)
    ensures |bytes| == 16
  {
    ToLE(d.entryNumber, 4) + ToLE(d.base, 4) + ToLE(d.limit, 4) + ToLE(d.flags, 4)
  }

  lemma FourPieces(p: seq<Byte>, q: seq<Byte>, r: seq<Byte>, s: seq<Byte>)
    requires |p| == |q| == |r| == |s| == 4
    ensures (p + q + r + s)[0..4] == p && (p + q + r + s)[4..8] == q
    ensures (p + q + r + s)[8..12] == r && (p + q + r + s)[12..16] == s
  {
  }

  lemma WordComesBack(v: U32)
    ensures FromLE(ToLE(v, 4)) == v
  {
    assert Pow256(4) == 0x1_0000_0000;
    WordRoundTrip(v, 4);
  }

  lemma LaidRoundTrip(d: UserDesc)
    ensures DescOf(Laid(d)) == d
  {
    FourPieces(ToLE(d.entryNumber, 4), ToLE(d.base, 4), ToLE(d.limit, 4), ToLE(d.flags, 4));
    WordComesBack(d.entryNumber);
    WordComesBack(d.base);
    WordComesBack(d.limit);
    WordComesBack(d.flags);
  }

  /** The guest stores each request outside the table, in mapped memory, and makes the call. */
  predicate Sane(cells: Cells, gdt: U64, r: Request) {
    r.addr != 0 && AllMapped(cells, r.addr, 16) && Away(r.addr, 16, gdt)
  }

  function OneRequest(cells: Cells, gdt: U64, r: Request): (Cells, Outcome) {
    ThreadAreaStep(WriteCells(cells, r.addr, Laid(r.desc)), gdt, true, r.addr)
  }

  function AllRequests(cells: Cells, gdt: U64, rs: seq<Request>): (Cells, seq<Outcome>)
    decreases |rs|
  {
    if rs == [] then (cells, [])
    else
      var one := OneRequest(cells, gdt, rs[0]);
      var rest := AllRequests(one.0, gdt, rs[1..]);
      (rest.0, [one.1] + rest.1)
  }

  function ApplyAll(t: Table, rs: seq<Request>): (Table, seq<Outcome>)
    decreases |rs|
  {
    if rs == [] then (t, [])
    else
      var one := Apply(t, rs[0].desc);
      var rest := ApplyAll(one.0, rs[1..]);
      (rest.0, [one.1] + rest.1)
  }

  lemma RequestRefines(cells: Cells, gdt: U64, r: Request)
    requires TableMapped(cells, gdt) && Sane(cells, gdt, r)
    ensures var s := OneRequest(cells, gdt, r);
      && TableMapped(s.0, gdt) && s.0.Keys == cells.Keys
      && (Slots(s.0, gdt), s.1) == Apply(Slots(cells, gdt), r.desc)
      && (forall k: nat :: k < TLS_MIN ==> Entry(s.0, gdt, k) == Entry(cells, gdt, k))
  {
    var stored := WriteCells(cells, r.addr, Laid(r.desc));
    forall k: nat | k <= TLS_MAX ensures TableMapped(stored, gdt) && Entry(stored, gdt, k) == Entry(cells, gdt, k) {
      EntryKept(cells, gdt, k, r.addr, Laid(r.desc));
    }
    WriteKeepsMapped(cells, r.addr, Laid(r.desc), r.addr, 16);
    WriteKeepsMapped(cells, r.addr, Laid(r.desc), gdt, 72);
    ReadAfterWrite(cells, r.addr, Laid(r.desc));
    LaidRoundTrip(r.desc);
    StepRefines(stored, gdt, r.addr);
    assert Refined(stored, OneRequest(cells, gdt, r).0, gdt, r.desc, OneRequest(cells, gdt, r).1);
    StepKeepsKeys(stored, gdt, r.addr);
    assert stored.Keys == cells.Keys;
  }

  lemma StepKeepsKeys(cells: Cells, gdt: U64, addr: U64)
    ensures ThreadAreaStep(cells, gdt, true, addr).0.Keys == cells.Keys
  {
  }

  /** Over any sequence of requests, the bytes of the GDT stand for the slots a guest expects, every
      answer is the expected one, and the first six descriptors never change. */
  lemma {:induction false} RequestsRefine(cells: Cells, gdt: U64, rs: seq<Request>)
    requires TableMapped(cells, gdt) && forall i :: 0 <= i < |rs| ==> Sane(cells, gdt, rs[i])
    ensures var s := AllRequests(cells, gdt, rs);
      && TableMapped(s.0, gdt)
      && (Slots(s.0, gdt), s.1) == ApplyAll(Slots(cells, gdt), rs)
      && (forall k: nat :: k < TLS_MIN ==> Entry(s.0, gdt, k) == Entry(cells, gdt, k))
    decreases |rs|
  {
    if rs != [] {
      RequestRefines(cells, gdt, rs[0]);
      var next := OneRequest(cells, gdt, rs[0]).0;
      assert forall a :: a in next <==> a in next.Keys;
      forall i | 0 <= i < |rs[1..]| ensures Sane(next, gdt, rs[1..][i]) {
        assert Sane(cells, gdt, rs[i + 1]);
      }
      RequestsRefine(next, gdt, rs[1..]);
    }
  }
}
