/** The edge-coverage map of src/fuzzing.rs: the block hook and the clearing before each input. */
module Coverage {
  import opened Words

  /** Bitwise exclusive or. */
  function Xor(a: nat, b: nat): nat
    decreases a + b
  {
    if a == 0 && b == 0 then 0 else (a % 2 + b % 2) % 2 + 2 * Xor(a / 2, b / 2)
  }

  /** Bit i of a number. */
  function Bit(n: nat, i: nat): nat {
    if i == 0 then n % 2 else Bit(n / 2, i - 1)
  }

  /** A bit is set in one of the two numbers and not in the other. */
  lemma {:induction false} XorBits(a: nat, b: nat, i: nat)
    ensures Bit(Xor(a, b), i) == if Bit(a, i) == Bit(b, i) then 0 else 1
  {
    if a == 0 && b == 0 {
      ZeroBits(i);
    } else {
      LowBit((a % 2 + b % 2) % 2, Xor(a / 2, b / 2));
      if i != 0 {
        XorBits(a / 2, b / 2, i - 1);
      }
    }
  }

  lemma LowBit(low: nat, high: nat)
    requires low < 2
    ensures (low + 2 * high) % 2 == low && (low + 2 * high) / 2 == high
  {
  }

  lemma {:induction false} ZeroBits(i: nat)
    ensures Bit(0, i) == 0
  {
    if i != 0 {
      ZeroBits(i - 1);
    }
  }

  function Location(addr: U64, len: nat): (loc: nat)
    requires 0 < len
    ensures loc < len
  {
    addr / 16 % len
  }

  /** Map contents and the halved location of the block before. */
  datatype State = State(slots: seq<Byte>, prevLoc: nat)

  function Cleared(len: nat): State {
    State(seq(len, _ => 0), 0)
  }

  function SaturatingInc(b: Byte): Byte {
    if b == 0xFF then 0xFF else b + 1
  }

  function Block(s: State, addr: U64): (t: State)
    requires s.slots != []
    ensures |t.slots| == |s.slots|
  {
    var current := Location(addr, |s.slots|);
    var index := Xor(current, s.prevLoc) % |s.slots|;
    State(s.slots[index := SaturatingInc(s.slots[index])], current / 2)
  }

  class CoverageMap {
    const buffer: array<Byte>
    var prevLoc: nat

    constructor (buffer: array<Byte>)
      ensures this.buffer == buffer && prevLoc == 0
    {
      this.buffer := buffer;
      prevLoc := 0;
    }

    ghost function Value(): State
      reads this, buffer
    {
      State(buffer[..], prevLoc)
    }

    /** An empty map is left alone, its previous location too. */
    method Clear()
      modifies this, buffer
      ensures Value() == if buffer.Length == 0 then old(Value()) else Cleared(buffer.Length)
    {
      if buffer.Length == 0 {
        return;
      }
      for i := 0 to buffer.Length
        invariant forall k :: 0 <= k < i ==> buffer[k] == 0
      {
        buffer[i] := 0;
      }
      prevLoc := 0;
    }

    method OnBlock(addr: U64)
      requires buffer.Length != 0
      modifies this, buffer
      ensures Value() == Block(old(Value()), addr)
    {
      var current := Location(addr, buffer.Length);
      var index := Xor(current, prevLoc) % buffer.Length;
      buffer[index] := SaturatingInc(buffer[index]);
      prevLoc := current / 2;
    }
  }

  /** The map after the blocks of a trace, from a cleared one. */
  function Traced(len: nat, trace: seq<U64>): (s: State)
    requires 0 < len
    ensures |s.slots| == len
  {
    if trace == [] then Cleared(len) else Block(Traced(len, trace[..|trace| - 1]), trace[|trace| - 1])
  }

  /** The slot of the k-th block of a trace together with the one before it: the address from bit 4 up,
      modulo the length, against half of that of the block before, or 0 for the first block. */
  function EdgeSlot(len: nat, trace: seq<U64>, k: nat): nat
    requires 0 < len && k < |trace|
  {
    Xor(trace[k] / 16 % len, if k == 0 then 0 else trace[k - 1] / 16 % len / 2) % len
  }

  /** How many of the first n pairs fall on a slot. */
  function Hits(len: nat, trace: seq<U64>, n: nat, slot: nat): nat
    requires 0 < len && n <= |trace|
  {
    if n == 0 then 0 else Hits(len, trace, n - 1, slot) + (if EdgeSlot(len, trace, n - 1) == slot then 1 else 0)
  }

  lemma {:induction false} HitsOfPrefix(len: nat, trace: seq<U64>, n: nat, m: nat, slot: nat)
    requires 0 < len && n <= m <= |trace|
    ensures Hits(len, trace[..m], n, slot) == Hits(len, trace, n, slot)
  {
    if n != 0 {
      HitsOfPrefix(len, trace, n - 1, m, slot);
    }
  }

  /** Every slot holds the number of consecutive pairs that hash to it, capped at 255: the map is a
      function of the trace since the last clearing, and of nothing else. */
  lemma {:induction false} SlotsCountEdges(len: nat, trace: seq<U64>, slot: nat)
    requires 0 < len && slot < len
    ensures var hits := Hits(len, trace, |trace|, slot);
      Traced(len, trace).slots[slot] == if hits < 255 then hits else 255
    ensures Traced(len, trace).prevLoc == if trace == [] then 0 else trace[|trace| - 1] / 16 % len / 2
    decreases |trace|
  {
    if trace != [] {
      var init := trace[..|trace| - 1];
      SlotsCountEdges(len, init, slot);
      HitsOfPrefix(len, trace, |init|, |init|, slot);
      assert |init| != 0 ==> init[|init| - 1] == trace[|trace| - 2];
    }
  }
}
