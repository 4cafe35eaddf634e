/** The emulator instance of src/lib.rs: memory, engine, and the guest state the Linux layer keeps. */
module Emulator {
  import opened Words
  import opened Regions
  import opened Engine
  import opened Memory

  /** What the address-space properties speak about, as a value. */
  datatype Space = Space(regions: seq<Region>, cells: Cells, heapStart: U64, heapExit: U64)

  datatype Creds = Creds(uid: U32, euid: U32, gid: U32, egid: U32)

  /** Linux state of the guest besides memory that a snapshot carries. */
  datatype GuestState = GuestState(
    creds: Creds,
    sigactions: map<int, seq<Byte>>,
    sigmask: seq<Byte>,
    prctlName: seq<Byte>,
    pdeathsig: int,
    dumpable: int)

  datatype RunState = NotSet | Running | Stopped | Ended

  /** The registers of the CPU, by name. */
  type Context = map<string, U64>

  class Valkyrie {
    const mem: VMemory
    const uc: Unicorn
    var context: Context
    var guest: GuestState
    var stdinData: seq<Byte>
    var stdinOffset: nat
    var state: RunState
    var exitStatus: Option<U64>
    var crashed: bool
    var exitTrap: Option<U64>

    constructor (guest: GuestState, stdin: seq<Byte>)
      ensures fresh(mem) && fresh(uc)
      ensures AddressSpace() == Space([], map[], 0, 0)
      ensures this.guest == guest && stdinData == stdin && stdinOffset == 0 && exitTrap == None
    {
      mem := new VMemory();
      uc := new Unicorn();
      context := map[];
      this.guest := guest;
      stdinData, stdinOffset := stdin, 0;
      state, exitStatus, crashed, exitTrap := NotSet, None, false, None;
    }

    ghost function AddressSpace(): Space
      reads this, mem, uc
    {
      Space(mem.regions, uc.cells, mem.heapStart, mem.heapExit)
    }

    method ResetExecutionState()
      modifies this`state, this`exitStatus, this`crashed, this`stdinOffset
      ensures state == NotSet && exitStatus == None && !crashed && stdinOffset == 0
    {
      state := NotSet;
      exitStatus := None;
      crashed := false;
      stdinOffset := 0;
    }

    method SetStdinBytes(value: seq<Byte>)
      modifies this`stdinData, this`stdinOffset
      ensures stdinData == value && stdinOffset == 0
    {
      stdinData := value;
      stdinOffset := 0;
    }
  }
}
