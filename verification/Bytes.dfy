/** Words and strings in guest memory: what the emulator writes and what a guest reads there. */
module Bytes {
  import opened Words
  import opened Engine
  import opened Emulator

  // ---- little-endian words

  function Pow256(w: nat): (p: nat)
    ensures 0 < p
  {
    if w == 0 then 1 else 256 * Pow256(w - 1)
  }

  /** The low `w` bytes of a word, `to_le_bytes` cut to its width. */
  function ToLE(v: nat, w: nat): (bytes: seq<Byte>)
    ensures |bytes| == w
  {
    if w == 0 then [] else [v % 256] + ToLE(v / 256, w - 1)
  }

  function FromLE(bytes: seq<Byte>): nat {
    if bytes == [] then 0 else bytes[0] + 256 * FromLE(bytes[1..])
  }

  lemma {:induction false} FromLEBound(bytes: seq<Byte>)
    ensures FromLE(bytes) < Pow256(|bytes|)
  {
    if bytes != [] {
      FromLEBound(bytes[1..]);
    }
  }

  lemma {:induction false} WordRoundTrip(v: nat, w: nat)
    requires v < Pow256(w)
    ensures FromLE(ToLE(v, w)) == v
  {
    if w != 0 {
      assert v / 256 < Pow256(w - 1);
      WordRoundTrip(v / 256, w - 1);
      assert ToLE(v, w)[1..] == ToLE(v / 256, w - 1);
    }
  }

  /** The first byte is the lowest digit. */
  lemma FourBytes(bytes: seq<Byte>)
    requires |bytes| == 4
    ensures FromLE(bytes) ==
      bytes[0] as int + 0x100 * bytes[1] as int + 0x1_0000 * bytes[2] as int + 0x100_0000 * bytes[3] as int
  {
    assert FromLE(bytes[3..]) == bytes[3] + 256 * FromLE(bytes[3..][1..]);
    assert bytes[1..][1..] == bytes[2..] && bytes[2..][1..] == bytes[3..];
    assert FromLE(bytes[2..]) == bytes[2] + 256 * FromLE(bytes[3..]);
  }

  lemma EightBytes(bytes: seq<Byte>)
    requires |bytes| == 8
    ensures FromLE(bytes) ==
      bytes[0] as int + 0x100 * bytes[1] as int + 0x1_0000 * bytes[2] as int + 0x100_0000 * bytes[3] as int
      + 0x1_0000_0000 * bytes[4] as int + 0x100_0000_0000 * bytes[5] as int
      + 0x1_0000_0000_0000 * bytes[6] as int + 0x100_0000_0000_0000 * bytes[7] as int
  {
    FourBytes(bytes[4..]);
    assert bytes[1..][1..] == bytes[2..] && bytes[2..][1..] == bytes[3..] && bytes[3..][1..] == bytes[4..];
    assert FromLE(bytes[3..]) == bytes[3] + 256 * FromLE(bytes[4..]);
    assert FromLE(bytes[2..]) == bytes[2] + 256 * FromLE(bytes[3..]);
  }

  lemma LowDigit(low: Byte, high: nat)
    ensures (low + 256 * high) % 256 == low && (low + 256 * high) / 256 == high
  {
  }

  lemma {:induction false} BytesRoundTrip(bytes: seq<Byte>)
    ensures ToLE(FromLE(bytes), |bytes|) == bytes
  {
    if bytes != [] {
      LowDigit(bytes[0], FromLE(bytes[1..]));
      BytesRoundTrip(bytes[1..]);
      assert bytes == [bytes[0]] + bytes[1..];
    }
  }

  function EncodeAll(words: seq<nat>, w: nat): seq<Byte> {
    if words == [] then [] else ToLE(words[0], w) + EncodeAll(words[1..], w)
  }

  lemma {:induction false} EncodeAppend(words: seq<nat>, v: nat, w: nat)
    ensures EncodeAll(words + [v], w) == EncodeAll(words, w) + ToLE(v, w)
  {
    if words == [] {
      assert words + [v] == [v];
      assert EncodeAll([v], w) == ToLE(v, w) + EncodeAll([], w);
    } else {
      assert (words + [v])[1..] == words[1..] + [v];
      EncodeAppend(words[1..], v, w);
    }
  }

  lemma {:induction false} EncodeConcat(xs: seq<nat>, ys: seq<nat>, w: nat)
    ensures EncodeAll(xs + ys, w) == EncodeAll(xs, w) + EncodeAll(ys, w)
  {
    if xs == [] {
      assert xs + ys == ys;
    } else {
      assert (xs + ys)[1..] == xs[1..] + ys;
      EncodeConcat(xs[1..], ys, w);
    }
  }

  lemma {:induction false} EncodeLength(words: seq<nat>, w: nat)
    ensures |EncodeAll(words, w)| == |words| * w
  {
    if words != [] {
      EncodeLength(words[1..], w);
      assert |words| * w == (|words| - 1) * w + w;
    }
  }

  // ---- contents of memory

  ghost predicate HoldsAt(cells: Cells, addr: int, bytes: seq<Byte>) {
    forall k :: 0 <= k < |bytes| ==> HoldsByte(cells, addr + k, bytes[k])
  }

  predicate HoldsByte(cells: Cells, a: int, b: Byte) {
    a in cells && cells[a].byte == b
  }

  lemma HoldsPart(cells: Cells, addr: int, xs: seq<Byte>, ys: seq<Byte>)
    requires HoldsAt(cells, addr, xs + ys)
    ensures HoldsAt(cells, addr, xs) && HoldsAt(cells, addr + |xs|, ys)
  {
    forall k | 0 <= k < |xs| ensures HoldsByte(cells, addr + k, xs[k]) {
      assert (xs + ys)[k] == xs[k];
    }
    forall k | 0 <= k < |ys| ensures HoldsByte(cells, addr + |xs| + k, ys[k]) {
      assert (xs + ys)[|xs| + k] == ys[k];
      assert HoldsByte(cells, addr + (|xs| + k), (xs + ys)[|xs| + k]);
    }
  }

  lemma HoldsJoin(cells: Cells, addr: int, xs: seq<Byte>, ys: seq<Byte>)
    requires HoldsAt(cells, addr, xs) && HoldsAt(cells, addr + |xs|, ys)
    ensures HoldsAt(cells, addr, xs + ys)
  {
    forall k | 0 <= k < |xs + ys| ensures HoldsByte(cells, addr + k, (xs + ys)[k]) {
      if k >= |xs| {
        assert HoldsByte(cells, addr + |xs| + (k - |xs|), ys[k - |xs|]);
      }
    }
  }

  lemma HoldsWritten(cells: Cells, addr: int, data: seq<Byte>)
    requires AllMapped(cells, addr, |data|)
    ensures HoldsAt(WriteCells(cells, addr, data), addr, data)
  {
  }

  lemma HoldsElsewhere(cells: Cells, at: int, bytes: seq<Byte>, addr: int, data: seq<Byte>)
    requires HoldsAt(cells, at, bytes) && (addr + |data| <= at || at + |bytes| <= addr)
    ensures HoldsAt(WriteCells(cells, addr, data), at, bytes)
  {
    forall k | 0 <= k < |bytes| ensures HoldsByte(WriteCells(cells, addr, data), at + k, bytes[k]) {
      assert HoldsByte(cells, at + k, bytes[k]);
    }
  }

  /** Writing right below what is there. */
  lemma HoldsBelow(cells: Cells, addr: int, data: seq<Byte>, tail: seq<Byte>)
    requires AllMapped(cells, addr, |data|) && HoldsAt(cells, addr + |data|, tail)
    ensures HoldsAt(WriteCells(cells, addr, data), addr, data + tail)
  {
    HoldsWritten(cells, addr, data);
    HoldsElsewhere(cells, addr + |data|, tail, addr, data);
    HoldsJoin(WriteCells(cells, addr, data), addr, data, tail);
  }

  lemma WriteTwice(cells: Cells, addr: int, xs: seq<Byte>, ys: seq<Byte>)
    ensures WriteCells(WriteCells(cells, addr, xs), addr + |xs|, ys) == WriteCells(cells, addr, xs + ys)
  {
  }

  // ---- what a guest reads

  function Word(cells: Cells, addr: int, w: nat): Option<nat> {
    if AllMapped(cells, addr, w) then Some(FromLE(ReadCells(cells, addr, w))) else None
  }

  /** The bytes up to the first NUL; None if the string runs out of mapped memory. */
  function CString(cells: Cells, addr: int): Option<seq<Byte>>
    decreases MAX_U64 + 1 - addr
  {
    if addr > MAX_U64 || addr !in cells then None
    else if cells[addr].byte == 0 then Some([])
    else match CString(cells, addr + 1)
      case None => None
      case Some(rest) => Some([cells[addr].byte] + rest)
  }

  /** What is left of a byte string once it is read back up to a NUL. */
  function UpToNul(s: seq<Byte>): seq<Byte> {
    if s == [] || s[0] == 0 then [] else [s[0]] + UpToNul(s[1..])
  }

  lemma {:induction false} UpToNulIsAll(s: seq<Byte>)
    ensures UpToNul(s) == s <==> forall k :: 0 <= k < |s| ==> s[k] != 0
  {
    if s != [] && s[0] != 0 {
      UpToNulIsAll(s[1..]);
      assert s == [s[0]] + s[1..];
      assert (forall k :: 0 <= k < |s[1..]| ==> s[1..][k] != 0) ==> forall k :: 1 <= k < |s| ==> s[k] == s[1..][k - 1];
    }
  }

  lemma {:induction false} CStringOf(cells: Cells, addr: int, s: seq<Byte>)
    requires HoldsAt(cells, addr, s + [0]) && 0 <= addr && addr + |s| <= MAX_U64
    ensures CString(cells, addr) == Some(UpToNul(s))
    decreases |s|
  {
    assert HoldsByte(cells, addr + 0, (s + [0])[0]);
    if s != [] && s[0] != 0 {
      assert s + [0] == [s[0]] + (s[1..] + [0]);
      HoldsPart(cells, addr, [s[0]], s[1..] + [0]);
      CStringOf(cells, addr + 1, s[1..]);
    }
  }

  /** Consecutive words read back. */
  ghost predicate WordsAt(cells: Cells, addr: int, words: seq<nat>, w: nat)
    decreases |words|
  {
    words == [] || (Word(cells, addr, w) == Some(words[0]) && WordsAt(cells, addr + w, words[1..], w))
  }

  lemma WordOf(cells: Cells, addr: int, v: nat, w: nat)
    requires HoldsAt(cells, addr, ToLE(v, w)) && v < Pow256(w)
    ensures Word(cells, addr, w) == Some(v)
  {
    var bytes := ToLE(v, w);
    forall a | addr <= a < addr + w ensures a in cells {
      assert HoldsByte(cells, addr + (a - addr), bytes[a - addr]);
    }
    assert forall k :: 0 <= k < w ==> HoldsByte(cells, addr + k, bytes[k]);
    assert ReadCells(cells, addr, w) == bytes;
    WordRoundTrip(v, w);
  }

  lemma {:induction false} EncodedWords(cells: Cells, addr: int, words: seq<nat>, w: nat)
    requires HoldsAt(cells, addr, EncodeAll(words, w))
    requires forall i :: 0 <= i < |words| ==> words[i] < Pow256(w)
    ensures WordsAt(cells, addr, words, w)
    decreases |words|
  {
    if words != [] {
      HoldsPart(cells, addr, ToLE(words[0], w), EncodeAll(words[1..], w));
      WordOf(cells, addr, words[0], w);
      EncodedWords(cells, addr + w, words[1..], w);
    }
  }

  // ---- the words of the emulator

  lemma AtLeastOnce(m: nat, d: int)
    requires 0 < d
    ensures m * d >= m
  {
  }

  lemma RemainderIs(v: nat, m: nat, k: nat, r: nat)
    requires r < m && v == r + m * k
    ensures v % m == r
  {
    var q := v / m;
    assert m * (q - k) == r - v % m by {
      assert v == m * q + v % m;
    }
    if q > k {
      AtLeastOnce(m, q - k);
    } else if k > q {
      AtLeastOnce(m, k - q);
    }
  }

  /** What is cut off. */
  function Above(v: nat, w: nat): nat {
    if w == 0 then v else Above(v / 256, w - 1)
  }

  lemma {:induction false} LowAndAbove(v: nat, w: nat)
    ensures v == FromLE(ToLE(v, w)) + Pow256(w) * Above(v, w)
  {
    if w != 0 {
      LowAndAbove(v / 256, w - 1);
      assert ToLE(v, w)[1..] == ToLE(v / 256, w - 1);
      Regroup(v, FromLE(ToLE(v / 256, w - 1)), Pow256(w - 1), Above(v / 256, w - 1));
    }
  }

  lemma Regroup(v: nat, low: nat, p: nat, above: nat)
    requires v / 256 == low + p * above
    ensures v == v % 256 + 256 * low + (256 * p) * above
  {
    assert 256 * (p * above) == (256 * p) * above;
  }

  /** The bytes of a word cut to its width stand for the value modulo 256 to the width. */
  lemma LowBytes(v: nat, w: nat)
    ensures FromLE(ToLE(v, w)) == v % Pow256(w)
  {
    LowAndAbove(v, w);
    FromLEBound(ToLE(v, w));
    RemainderIs(v, Pow256(w), Above(v, w), FromLE(ToLE(v, w)));
  }

  lemma {:induction false} ZerosAddNothing(bytes: seq<Byte>, n: nat)
    ensures FromLE(bytes + seq(n, _ => 0)) == FromLE(bytes)
    decreases |bytes|, n
  {
    var padded := bytes + seq(n, _ => 0);
    if bytes != [] {
      assert padded[1..] == bytes[1..] + seq(n, _ => 0);
      ZerosAddNothing(bytes[1..], n);
    } else if n != 0 {
      assert padded[1..] == [] + seq(n - 1, _ => 0);
      ZerosAddNothing([], n - 1);
    }
  }

  lemma WordFits(bytes: seq<Byte>)
    requires |bytes| <= 8
    ensures FromLE(bytes) <= MAX_U64
  {
    var padded := bytes + seq<Byte>(8 - |bytes|, _ => 0);
    ZerosAddNothing(bytes, 8 - |bytes|);
    FromLEBound(padded);
    assert Pow256(8) == MAX_U64 + 1;
  }

  /** `write_word`: reading the word back gives the value cut to its width. A width above 8 is a
      panic of the original. */
  method WriteWord(vk: Valkyrie, addr: U64, value: U64, width: nat) returns (ok: bool)
    requires width <= 8
    modifies vk.uc
    ensures ok == (0 < width && AllMapped(old(vk.uc.cells), addr, width))
    ensures ok ==> Word(vk.uc.cells, addr, width) == Some(value % Pow256(width))
    ensures vk.uc.cells == if ok then WriteCells(old(vk.uc.cells), addr, ToLE(value, width)) else old(vk.uc.cells)
  {
    ghost var before := vk.uc.cells;
    ok := vk.mem.Write(vk.uc, addr, ToLE(value, width));
    if ok {
      WriteKeepsMapped(before, addr, ToLE(value, width), addr, width);
      ReadAfterWrite(before, addr, ToLE(value, width));
      LowBytes(value, width);
    }
  }

  /** `read_word`: the bytes are copied to the low end of an 8-byte buffer. */
  method ReadWord(vk: Valkyrie, addr: U64, width: nat) returns (value: Option<U64>)
    requires width <= 8
    ensures value.Some? == (0 < width && AllMapped(vk.uc.cells, addr, width))
    ensures value.Some? ==> Word(vk.uc.cells, addr, width) == Some(value.value)
  {
    var bytes := vk.mem.Read(vk.uc, addr, width);
    if bytes.None? {
      return None;
    }
    var buffer := bytes.value + seq(8 - width, _ => 0);
    ZerosAddNothing(bytes.value, 8 - width);
    WordFits(bytes.value);
    return Some(FromLE(buffer));
  }
}
