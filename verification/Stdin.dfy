/** The emulated standard input: `sys_read` of src/os/syscall/io.rs on descriptor 0. */
module Stdin {
  import opened Words
  import opened Engine
  import opened Emulator
  import opened Syscalls

  /** The configured bytes and how many of them are gone. */
  datatype Input = Input(data: seq<Byte>, offset: nat)

  /** What the host's own standard input yields; it is asked only when no bytes are configured. */
  datatype HostRead = HostBytes(bytes: seq<Byte>) | HostError(errno: int)

  function Min(a: int, b: int): int {
    if a < b then a else b
  }

  /** The bytes a read takes from the configured input, whether or not they arrive. */
  function Taken(input: Input, count: nat): (bytes: seq<Byte>)
    ensures |bytes| <= count
  {
    if input.offset >= |input.data| then []
    else input.data[input.offset..input.offset + Min(|input.data| - input.offset, count)]
  }

  /** Handing bytes to the guest; nothing is written for none. */
  function Deliver(cells: Cells, addr: U64, bytes: seq<Byte>): (Cells, Outcome)
    requires |bytes| <= MAX_U64
  {
    if bytes == [] then (cells, Ret(0))
    else if AllMapped(cells, addr, |bytes|) then (WriteCells(cells, addr, bytes), Ret(|bytes|))
    else (cells, Fault)
  }

  function ReadStep(input: Input, cells: Cells, addr: U64, count: U64, host: HostRead): (Input, Cells, Outcome)
    requires host.HostError? ==> 0 < host.errno < 0x1000
  {
    if count == 0 then (input, cells, Ret(0))
    else if input.data == [] then
      match host
      case HostError(errno) => (input, cells, Fail(errno))
      case HostBytes(bytes) =>
        var (after, r) := Deliver(cells, addr, if |bytes| < count then bytes else bytes[..count]);
        (input, after, r)
    else
      var taken := Taken(input, count);
      var (after, r) := Deliver(cells, addr, taken);
      (input.(offset := input.offset + |taken|), after, r)
  }

  method SysReadStdin(vk: Valkyrie, addr: U64, count: U64, host: HostRead) returns (r: Outcome)
    requires host.HostError? ==> 0 < host.errno < 0x1000
    modifies vk`stdinOffset, vk.uc
    ensures (Input(vk.stdinData, vk.stdinOffset), vk.uc.cells, r)
         == ReadStep(old(Input(vk.stdinData, vk.stdinOffset)), old(vk.uc.cells), addr, count, host)
  {
    if count == 0 {
      return Ret(0);
    }
    var buffer: seq<Byte> := [];
    if vk.stdinOffset < |vk.stdinData| {
      var remaining := vk.stdinData[vk.stdinOffset..];
      var bytesRead := Min(|remaining|, count);
      buffer := remaining[..bytesRead];
      assert buffer == Taken(Input(vk.stdinData, vk.stdinOffset), count);
      vk.stdinOffset := vk.stdinOffset + bytesRead;
    } else if |vk.stdinData| == 0 {
      match host
      case HostError(errno) => return Fail(errno);
      case HostBytes(bytes) => buffer := if |bytes| < count then bytes else bytes[..count];
    }
    if |buffer| > 0 {
      var ok := vk.mem.Write(vk.uc, addr, buffer);
      if !ok {
        return Fault;
      }
    }
    return Ret(|buffer|);
  }

  /** With no input configured the host's own is asked: its error is the answer, negated, and nothing
      changes; else the guest finds what the host has given, up to the count, and is told how much. A
      buffer that is not mapped fails and nothing is written. */
  lemma HostReadDelivers(input: Input, cells: Cells, addr: U64, count: U64, host: HostRead, a: int)
    requires input.data == [] && count != 0 && (host.HostError? ==> 0 < host.errno < 0x1000)
    ensures ReadStep(input, cells, addr, count, host).0 == input
    ensures host.HostError? ==>
      ReadStep(input, cells, addr, count, host) == (input, cells, Ret(0x1_0000_0000_0000_0000 - host.errno))
    ensures host.HostBytes? ==>
      var n: nat := if |host.bytes| < count then |host.bytes| else count;
      var (_, now, r) := ReadStep(input, cells, addr, count, host);
      if forall b :: addr <= b < addr + n ==> b in cells then
        && r == Ret(n) && (a in now <==> a in cells)
        && (a in cells ==>
              now[a] == if addr <= a < addr + n then cells[a].(byte := host.bytes[a - addr]) else cells[a])
      else r == Fault && now == cells
  {
    if host.HostBytes? {
      var bytes := if |host.bytes| < count then host.bytes else host.bytes[..count];
      assert AllMapped(cells, addr, |bytes|) <==> forall b :: addr <= b < addr + |bytes| ==> b in cells;
    }
  }

  /** A read of nothing is answered with 0. */
  lemma EmptyReadDoesNothing(input: Input, cells: Cells, addr: U64, host: HostRead)
    requires host.HostError? ==> 0 < host.errno < 0x1000
    ensures ReadStep(input, cells, addr, 0, host) == (input, cells, Ret(0))
  {
  }

  // ---- whole runs

  /** One read of the guest, and the memory it finds. */
  datatype Request = Request(addr: U64, count: U64, cells: Cells)

  const NO_HOST := HostBytes([])

  function One(input: Input, q: Request): (Input, Cells, Outcome) {
    ReadStep(input, q.cells, q.addr, q.count, NO_HOST)
  }

  function Run(input: Input, qs: seq<Request>): Input
    decreases |qs|
  {
    if qs == [] then input else Run(One(input, qs[0]).0, qs[1..])
  }

  function Outcomes(input: Input, qs: seq<Request>): (rs: seq<Outcome>)
    ensures |rs| == |qs|
    decreases |qs|
  {
    if qs == [] then [] else [One(input, qs[0]).2] + Outcomes(One(input, qs[0]).0, qs[1..])
  }

  /** What a guest puts together from its buffers: after each read that tells it a length, that many
      bytes from where it asked for them. */
  function Received(input: Input, qs: seq<Request>): seq<Byte>
    decreases |qs|
  {
    if qs == [] then []
    else
      var (next, after, r) := One(input, qs[0]);
      (if r.Ret? && AllMapped(after, qs[0].addr, r.value) then ReadCells(after, qs[0].addr, r.value) else [])
      + Received(next, qs[1..])
  }

  function Counts(qs: seq<Request>): nat {
    if qs == [] then 0 else qs[0].count + Counts(qs[1..])
  }

  lemma OneTakes(input: Input, q: Request)
    requires input.data != [] && input.offset <= |input.data|
    ensures One(input, q).0 == input.(offset := Min(|input.data|, input.offset + q.count))
    ensures One(input, q).2.Fault? || One(input, q).2 == Ret(One(input, q).0.offset - input.offset)
    ensures One(input, q).2.Fault? ==> input.offset < One(input, q).0.offset
  {
  }

  /** After any reads of any sizes exactly the asked-for number of bytes is gone, or all of them: how
      the reads were cut makes no difference, and neither does whether their buffers were any good. */
  lemma {:induction false} OffsetIsTotal(input: Input, qs: seq<Request>)
    requires input.data != [] && input.offset <= |input.data|
    ensures Run(input, qs) == input.(offset := Min(|input.data|, input.offset + Counts(qs)))
    decreases |qs|
  {
    if qs != [] {
      OneTakes(input, qs[0]);
      OffsetIsTotal(One(input, qs[0]).0, qs[1..]);
    }
  }

  lemma OneReceives(input: Input, q: Request)
    requires input.data != [] && input.offset <= |input.data|
    ensures var (next, after, r) := One(input, q);
      && (r.Ret? ==> r.value == next.offset - input.offset && AllMapped(after, q.addr, r.value)
                     && ReadCells(after, q.addr, r.value) == input.data[input.offset..next.offset])
  {
    OneTakes(input, q);
    var (next, after, r) := One(input, q);
    var taken := Taken(input, q.count);
    if r.Ret? && q.count != 0 && taken != [] {
      WriteKeepsMapped(q.cells, q.addr, taken, q.addr, |taken|);
      ReadAfterWrite(q.cells, q.addr, taken);
    } else if r.Ret? {
      assert r.value == 0 && next.offset == input.offset;
      assert ReadCells(after, q.addr, 0) == [];
    }
  }

  predicate NoFault(rs: seq<Outcome>) {
    forall i :: 0 <= i < |rs| ==> !rs[i].Fault?
  }

  /** The guest has received exactly the bytes gone from the input, in order, none twice and none
      left out, if and only if no read failed on its buffer: one that does has lost its bytes. */
  lemma {:induction false} ReceivedIsPrefix(input: Input, qs: seq<Request>)
    requires input.data != [] && input.offset <= |input.data|
    ensures input.offset <= Run(input, qs).offset <= |input.data|
    ensures |Received(input, qs)| <= Run(input, qs).offset - input.offset
    ensures Received(input, qs) == input.data[input.offset..Run(input, qs).offset] <==> NoFault(Outcomes(input, qs))
    decreases |qs|
  {
    OffsetIsTotal(input, qs);
    if qs != [] {
      var (next, after, r) := One(input, qs[0]);
      OneTakes(input, qs[0]);
      OneReceives(input, qs[0]);
      ReceivedIsPrefix(next, qs[1..]);
      NoFaultCons(r, Outcomes(next, qs[1..]));
      var end := Run(next, qs[1..]).offset;
      PrefixStep(input.data, input.offset, next.offset, end, r.Ret?, Received(next, qs[1..]));
      assert Received(input, qs)
          == (if r.Ret? then input.data[input.offset..next.offset] else []) + Received(next, qs[1..]);
    }
  }

  /** Received bytes in front of received bytes; a lost piece can not be made up for. */
  lemma PrefixStep(data: seq<Byte>, lo: nat, mid: nat, hi: nat, arrived: bool, rest: seq<Byte>)
    requires lo <= mid <= hi <= |data| && |rest| <= hi - mid && (arrived || lo < mid)
    ensures var got := (if arrived then data[lo..mid] else []) + rest;
      |got| <= hi - lo && (got == data[lo..hi] <==> arrived && rest == data[mid..hi])
  {
    assert data[lo..hi] == data[lo..mid] + data[mid..hi];
    if arrived && data[lo..mid] + rest == data[lo..hi] {
      assert rest == (data[lo..mid] + rest)[mid - lo..] == data[lo..hi][mid - lo..] == data[mid..hi];
    }
  }

  lemma NoFaultCons(r: Outcome, rs: seq<Outcome>)
    ensures NoFault([r] + rs) <==> !r.Fault? && NoFault(rs)
  {
    if NoFault([r] + rs) {
      forall i | 0 <= i < |rs| ensures !rs[i].Fault? {
        assert ([r] + rs)[i + 1] == rs[i];
      }
      assert ([r] + rs)[0] == r;
    }
  }

  /** A read fails on its buffer exactly when it takes bytes and they have nowhere to go; a shorter
      count could have helped, and the bytes are gone all the same. */
  lemma FaultsExactly(input: Input, q: Request)
    requires input.data != [] && input.offset <= |input.data|
    ensures One(input, q).2.Fault? <==>
      !AllMapped(q.cells, q.addr, Min(|input.data| - input.offset, q.count))
  {
  }

  /** Once the input is used up every read answers 0 and touches nothing. */
  lemma {:induction false} ExhaustedReadsNothing(input: Input, qs: seq<Request>)
    requires input.data != [] && input.offset == |input.data|
    ensures Run(input, qs) == input && Received(input, qs) == []
    ensures forall i :: 0 <= i < |qs| ==> Outcomes(input, qs)[i] == Ret(0)
    ensures forall q :: One(input, q).1 == q.cells
    decreases |qs|
  {
    if qs != [] {
      OneReceives(input, qs[0]);
      ExhaustedReadsNothing(input, qs[1..]);
    }
  }

  /** The next so many bytes of the input, or what there is. */
  function Next(input: Input, total: nat): seq<Byte>
    requires input.offset <= |input.data|
  {
    input.data[input.offset..Min(|input.data|, input.offset + total)]
  }

  /** In closed form, for reads with good buffers. */
  lemma ReceivedInAll(input: Input, qs: seq<Request>)
    requires input.data != [] && input.offset <= |input.data|
    ensures NoFault(Outcomes(input, qs)) ==> Received(input, qs) == Next(input, Counts(qs))
  {
    NextIsTaken(input, qs);
    ReceivedIsPrefix(input, qs);
  }

  lemma NextIsTaken(input: Input, qs: seq<Request>)
    requires input.data != [] && input.offset <= |input.data|
    ensures input.offset <= Run(input, qs).offset <= |input.data|
    ensures input.data[input.offset..Run(input, qs).offset] == Next(input, Counts(qs))
  {
    OffsetIsTotal(input, qs);
  }

  /** However the reads are cut, those that ask for as much between them deliver the same bytes. */
  lemma SizesDoNotMatter(input: Input, qs: seq<Request>, other: seq<Request>)
    requires input.data != [] && input.offset <= |input.data| && Counts(qs) == Counts(other)
    requires NoFault(Outcomes(input, qs)) && NoFault(Outcomes(input, other))
    ensures Received(input, qs) == Received(input, other)
  {
    ReceivedInAll(input, qs);
    ReceivedInAll(input, other);
    assert Received(input, qs) == Next(input, Counts(other));
  }
}
