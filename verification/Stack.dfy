/** The initial process stack of src/os/linux.rs, and the guest's reading of it: section 3.4.1 of
    the System V AMD64 psABI for the 64-bit form. */
module Stack {
  import opened Words
  import opened Engine
  import opened Emulator
  import opened Bytes

  /** What the ELF loader leaves for the auxiliary vector. */
  datatype AuxInfo = AuxInfo(phdr: U64, phent: U64, phnum: U64, base: U64, entry: U64)

  const AT_NULL := 0
  const AT_PHDR := 3
  const AT_PHENT := 4
  const AT_PHNUM := 5
  const AT_PAGESZ := 6
  const AT_BASE := 7
  const AT_ENTRY := 9
  const AT_UID := 11
  const AT_EUID := 12
  const AT_GID := 13
  const AT_EGID := 14
  const AT_CLKTCK := 17
  const AT_SECURE := 23
  const AT_RANDOM := 25
  const AT_EXECFN := 31

  type Pair = (nat, nat)

  predicate IsWidth(w: nat) {
    w == 4 || w == 8
  }

  lemma Widths()
    ensures Pow256(4) == 0x1_0000_0000 && Pow256(8) == MAX_U64 + 1
  {
  }

  /** `as u32` on the 32-bit guest, nothing on the 64-bit one. */
  function Cut(v: U64, w: nat): nat {
    if w == 4 then v % 0x1_0000_0000 else v
  }

  function LoaderPairs(i: AuxInfo, w: nat): seq<Pair> {
    [(AT_PHDR, Cut(i.phdr, w)), (AT_PHENT, Cut(i.phent, w)), (AT_PHNUM, Cut(i.phnum, w)),
     (AT_BASE, Cut(i.base, w)), (AT_ENTRY, Cut(i.entry, w))]
  }

  function IdPairs(creds: Creds): seq<Pair> {
    [(AT_UID, creds.uid), (AT_EUID, creds.euid), (AT_GID, creds.gid), (AT_EGID, creds.egid)]
  }

  function OtherPairs(execfn: U64, w: nat): seq<Pair> {
    [(AT_CLKTCK, 100), (AT_SECURE, 0), (AT_EXECFN, Cut(execfn, w))]
  }

  function LastPairs(random: U64, w: nat): seq<Pair> {
    [(AT_PAGESZ, 0x1000), (AT_RANDOM, Cut(random, w))]
  }

  function AuxPairs(info: Option<AuxInfo>, creds: Creds, execfn: U64, random: U64, w: nat): seq<Pair> {
    (match info
     case None => []
     case Some(i) => LoaderPairs(i, w) + (IdPairs(creds) + OtherPairs(execfn, w)))
    + LastPairs(random, w)
  }

  function Flatten(pairs: seq<Pair>): (words: seq<nat>)
    ensures |words| == 2 * |pairs|
  {
    if pairs == [] then [] else [pairs[0].0, pairs[0].1] + Flatten(pairs[1..])
  }

  /** Strings back to back, each with its NUL, the first one lowest. */
  function Packed(argv: seq<seq<Byte>>): seq<Byte> {
    if argv == [] then [] else argv[0] + [0] + Packed(argv[1..])
  }

  /** Where the strings end up below `top`. */
  function Pointers(argv: seq<seq<Byte>>, top: int): (ptrs: seq<int>)
    ensures |ptrs| == |argv|
  {
    if argv == [] then [] else [top - |Packed(argv)|] + Pointers(argv[1..], top)
  }

  const RANDOM_BYTES: seq<Byte> := [0x42, 0x42, 0x42, 0x42, 0x42, 0x42, 0x42, 0x42,
                                    0x42, 0x42, 0x42, 0x42, 0x42, 0x42, 0x42, 0x42]

  // ---- the guest's side

  /** What a program finds on its stack: its arguments and the auxiliary vector. */
  datatype StartInfo = StartInfo(argv: seq<seq<Byte>>, auxv: seq<Pair>)

  function ParseArgv(cells: Cells, addr: int, n: nat, w: nat): Option<(seq<seq<Byte>>, int)>
    decreases n
  {
    if n == 0 then Some(([], addr))
    else match Word(cells, addr, w)
      case None => None
      case Some(p) => match CString(cells, p)
        case None => None
        case Some(s) => match ParseArgv(cells, addr + w, n - 1, w)
          case None => None
          case Some((rest, end)) => Some(([s] + rest, end))
  }

  function ParseAuxv(cells: Cells, addr: int, w: nat): Option<seq<Pair>>
    requires 0 < w
    decreases MAX_U64 + 1 - addr
  {
    if addr > MAX_U64 then None
    else match Word(cells, addr, w)
      case None => None
      case Some(key) =>
        if key == AT_NULL then Some([])
        else match Word(cells, addr + w, w)
          case None => None
          case Some(value) => match ParseAuxv(cells, addr + 2 * w, w)
            case None => None
            case Some(rest) => Some([(key, value)] + rest)
  }

  /** argc, that many argument pointers, NULL, no environment, NULL, pairs up to AT_NULL. */
  function ParseStack(cells: Cells, sp: int, w: nat): Option<StartInfo>
    requires 0 < w
  {
    match Word(cells, sp, w)
    case None => None
    case Some(argc) => match ParseArgv(cells, sp + w, argc, w)
      case None => None
      case Some((argv, end)) =>
        if Word(cells, end, w) != Some(0) || Word(cells, end + w, w) != Some(0) then None
        else match ParseAuxv(cells, end + 2 * w, w)
          case None => None
          case Some(auxv) => Some(StartInfo(argv, auxv))
  }

  function ReadBack(argv: seq<seq<Byte>>): (out: seq<seq<Byte>>)
    ensures |out| == |argv|
  {
    if argv == [] then [] else [UpToNul(argv[0])] + ReadBack(argv[1..])
  }

  /** The arguments come back unchanged exactly when none has a NUL in it. */
  lemma {:induction false} ReadBackIsSame(argv: seq<seq<Byte>>)
    ensures ReadBack(argv) == argv <==> forall i, k :: 0 <= i < |argv| && 0 <= k < |argv[i]| ==> argv[i][k] != 0
  {
    if argv != [] {
      UpToNulIsAll(argv[0]);
      ReadBackIsSame(argv[1..]);
      assert argv == [argv[0]] + argv[1..];
      if ReadBack(argv) == argv {
        assert ReadBack(argv)[1..] == ReadBack(argv[1..]);
        assert ReadBack(argv)[0] == UpToNul(argv[0]);
      }
    }
  }

  lemma {:induction false} ParseArgvOf(cells: Cells, addr: int, ptrs: seq<nat>, argv: seq<seq<Byte>>,
                                           rest: seq<nat>, w: nat)
    returns (end: int)
    requires |ptrs| == |argv| && WordsAt(cells, addr, ptrs + rest, w)
    requires forall i :: 0 <= i < |ptrs| ==> CString(cells, ptrs[i]) == Some(UpToNul(argv[i]))
    ensures ParseArgv(cells, addr, |ptrs|, w) == Some((ReadBack(argv), end))
    ensures WordsAt(cells, end, rest, w)
    decreases |ptrs|
  {
    if ptrs == [] {
      assert ptrs + rest == rest;
      end := addr;
    } else {
      assert (ptrs + rest)[1..] == ptrs[1..] + rest;
      end := ParseArgvOf(cells, addr + w, ptrs[1..], argv[1..], rest, w);
    }
  }

  lemma {:induction false} ParseAuxvOf(cells: Cells, addr: int, pairs: seq<Pair>, w: nat)
    requires 0 < w && WordsAt(cells, addr, Flatten(pairs) + [AT_NULL, 0], w)
    requires forall i :: 0 <= i < |pairs| ==> pairs[i].0 != AT_NULL
    requires forall a :: a in cells ==> a <= MAX_U64
    ensures ParseAuxv(cells, addr, w) == Some(pairs)
    decreases |pairs|
  {
    var words := Flatten(pairs) + [AT_NULL, 0];
    assert addr in cells;
    if pairs != [] {
      assert words[1..][1..] == Flatten(pairs[1..]) + [AT_NULL, 0];
      ParseAuxvOf(cells, addr + 2 * w, pairs[1..], w);
      assert pairs == [(pairs[0].0, pairs[0].1)] + pairs[1..];
    }
  }

  // ---- the layout

  predicate WordSized(words: seq<nat>, w: nat) {
    forall i :: 0 <= i < |words| ==> words[i] < Pow256(w)
  }

  lemma {:induction false} FlattenSized(pairs: seq<Pair>, w: nat)
    requires forall i :: 0 <= i < |pairs| ==> pairs[i].0 < Pow256(w) && pairs[i].1 < Pow256(w)
    ensures WordSized(Flatten(pairs), w)
  {
    if pairs != [] {
      FlattenSized(pairs[1..], w);
    }
  }

  lemma AuxPairsSized(info: Option<AuxInfo>, creds: Creds, execfn: U64, random: U64, w: nat)
    requires IsWidth(w)
    ensures WordSized(Flatten(AuxPairs(info, creds, execfn, random, w)), w)
    ensures forall i :: 0 <= i < |AuxPairs(info, creds, execfn, random, w)| ==>
      AuxPairs(info, creds, execfn, random, w)[i].0 != AT_NULL
  {
    Widths();
    FlattenSized(AuxPairs(info, creds, execfn, random, w), w);
  }

  function Frame(ptrs: seq<nat>, pairs: seq<Pair>): (words: seq<nat>)
    ensures |words| == |ptrs| + 5 + 2 * |pairs|
  {
    [|ptrs|] + (ptrs + ([0] + ([0] + (Flatten(pairs) + [AT_NULL, 0]))))
  }

  /** Words of the frame: with the loader's information argc + 33, without it argc + 9. */
  function FrameLength(argc: nat, info: Option<AuxInfo>): nat {
    argc + 5 + (if info.Some? then 28 else 4)
  }

  /** Lowest byte of the strings. */
  function Bottom(sp0: int, argv: seq<seq<Byte>>): int {
    sp0 - 16 - |Packed(argv)|
  }

  /** End of the frame: the strings' lowest byte rounded down to 16. */
  function FrameEnd(sp0: int, argv: seq<seq<Byte>>): int {
    Bottom(sp0, argv) - Bottom(sp0, argv) % 16
  }

  function FinalSp(sp0: int, argv: seq<seq<Byte>>, info: Option<AuxInfo>, w: nat): int {
    FrameEnd(sp0, argv) - FrameLength(|argv|, info) * w
  }

  /** The stack pointer handed to the program is 16-byte aligned exactly for an odd argument count
      on the 64-bit guest, and for a count that leaves 3 modulo 4 on the 32-bit one. */
  lemma FinalSpAlignment(sp0: int, argv: seq<seq<Byte>>, info: Option<AuxInfo>)
    ensures FinalSp(sp0, argv, info, 8) % 16 == 0 <==> |argv| % 2 == 1
    ensures FinalSp(sp0, argv, info, 4) % 16 == 0 <==> |argv| % 4 == 3
  {
    var high := Bottom(sp0, argv) / 16;
    assert FrameEnd(sp0, argv) == 16 * high;
    MultipleOf16(high, FrameLength(|argv|, info));
    FrameParity(|argv|, info);
  }

  lemma FrameParity(argc: nat, info: Option<AuxInfo>)
    ensures FrameLength(argc, info) % 2 == 0 <==> argc % 2 == 1
    ensures FrameLength(argc, info) % 4 == 0 <==> argc % 4 == 3
  {
  }

  lemma MultipleOf16(high: int, n: nat)
    ensures (16 * high - n * 8) % 16 == 0 <==> n % 2 == 0
    ensures (16 * high - n * 4) % 16 == 0 <==> n % 4 == 0
  {
    var half, quarter := n / 2, n / 4;
    assert 16 * high - n * 8 == 16 * (high - half) - 8 * (n - 2 * half);
    Below16(high - half, 8 * (n - 2 * half));
    assert 16 * high - n * 4 == 16 * (high - quarter) - 4 * (n - 4 * quarter);
    Below16(high - quarter, 4 * (n - 4 * quarter));
  }

  lemma Below16(k: int, r: int)
    requires 0 <= r < 16
    ensures (16 * k - r) % 16 == 0 <==> r == 0
  {
  }

  /** Frame, strings and random bytes lie in this order, without overlap, below the initial stack
      pointer; a gap of at most 15 bytes separates frame and strings. */
  lemma LayoutOrder(sp0: int, argv: seq<seq<Byte>>, info: Option<AuxInfo>, w: nat, i: nat)
    requires i < |argv|
    ensures FinalSp(sp0, argv, info, w) <= FrameEnd(sp0, argv) <= Bottom(sp0, argv) < FrameEnd(sp0, argv) + 16
    ensures Bottom(sp0, argv) <= Pointers(argv, sp0 - 16)[i]
    ensures Pointers(argv, sp0 - 16)[i] + |argv[i]| < sp0 - 16
  {
    assert FrameLength(|argv|, info) * w >= 0;
    PointerBounds(argv, sp0 - 16, i);
  }

  lemma {:induction false} PointerBounds(argv: seq<seq<Byte>>, top: int, i: nat)
    requires i < |argv|
    ensures top - |Packed(argv)| <= Pointers(argv, top)[i]
    ensures Pointers(argv, top)[i] + |argv[i]| < top
  {
    if i != 0 {
      PointerBounds(argv[1..], top, i - 1);
    }
  }

  /** Each pointer leads to its string. */
  lemma {:induction false} StringsInPlace(cells: Cells, argv: seq<seq<Byte>>, top: int, tail: seq<Byte>, i: nat)
    requires i < |argv| && HoldsAt(cells, top - |Packed(argv)|, Packed(argv) + tail)
    requires 0 <= top - |Packed(argv)| && top <= MAX_U64 + 1
    ensures Pointers(argv, top)[i] >= 0
    ensures CString(cells, Pointers(argv, top)[i]) == Some(UpToNul(argv[i]))
  {
    var at, first, rest := top - |Packed(argv)|, argv[0] + [0], Packed(argv[1..]);
    assert Packed(argv) + tail == first + (rest + tail);
    HoldsPart(cells, at, first, rest + tail);
    if i == 0 {
      CStringOf(cells, at, argv[0]);
    } else {
      StringsInPlace(cells, argv[1..], top, tail, i - 1);
    }
  }

  /** The finished stack: the strings with the random bytes above them, and the frame below. */
  ghost predicate Built(cells: Cells, sp0: int, argv: seq<seq<Byte>>, frame: seq<nat>, sp: int, w: nat) {
    && HoldsAt(cells, Bottom(sp0, argv), Packed(argv) + RANDOM_BYTES)
    && HoldsAt(cells, sp, EncodeAll(frame, w))
  }

  lemma WordsTail(cells: Cells, addr: int, v: nat, words: seq<nat>, w: nat)
    requires WordsAt(cells, addr, [v] + words, w)
    ensures Word(cells, addr, w) == Some(v) && WordsAt(cells, addr + w, words, w)
  {
    assert ([v] + words)[1..] == words;
  }

  lemma ParseParts(cells: Cells, sp: int, argc: nat, argv: seq<seq<Byte>>, end: int, pairs: seq<Pair>, w: nat)
    requires 0 < w && Word(cells, sp, w) == Some(argc)
    requires ParseArgv(cells, sp + w, argc, w) == Some((argv, end))
    requires Word(cells, end, w) == Some(0) && Word(cells, end + w, w) == Some(0)
    requires ParseAuxv(cells, end + w + w, w) == Some(pairs)
    ensures ParseStack(cells, sp, w) == Some(StartInfo(argv, pairs))
  {
    assert end + 2 * w == end + w + w;
  }

  lemma SkipZeros(cells: Cells, end: int, aux: seq<nat>, w: nat)
    requires WordsAt(cells, end, [0] + ([0] + aux), w)
    ensures Word(cells, end, w) == Some(0) && Word(cells, end + w, w) == Some(0)
    ensures WordsAt(cells, end + w + w, aux, w)
  {
    WordsTail(cells, end, 0, [0] + aux, w);
    WordsTail(cells, end + w, 0, aux, w);
  }

  lemma ParseArgs(cells: Cells, sp: int, ptrs: seq<nat>, argv: seq<seq<Byte>>, aux: seq<nat>, w: nat) returns (end: int)
    requires |ptrs| == |argv| && WordsAt(cells, sp, [|ptrs|] + (ptrs + ([0] + ([0] + aux))), w)
    requires forall i :: 0 <= i < |ptrs| ==> CString(cells, ptrs[i]) == Some(UpToNul(argv[i]))
    ensures Word(cells, sp, w) == Some(|ptrs|) && ParseArgv(cells, sp + w, |ptrs|, w) == Some((ReadBack(argv), end))
    ensures Word(cells, end, w) == Some(0) && Word(cells, end + w, w) == Some(0)
    ensures WordsAt(cells, end + w + w, aux, w)
  {
    WordsTail(cells, sp, |ptrs|, ptrs + ([0] + ([0] + aux)), w);
    end := ParseArgvOf(cells, sp + w, ptrs, argv, [0] + ([0] + aux), w);
    SkipZeros(cells, end, aux, w);
  }

  lemma ParseWords(cells: Cells, sp: int, ptrs: seq<nat>, argv: seq<seq<Byte>>, pairs: seq<Pair>, w: nat)
    requires 0 < w && |ptrs| == |argv| && WordsAt(cells, sp, Frame(ptrs, pairs), w)
    requires forall i :: 0 <= i < |ptrs| ==> CString(cells, ptrs[i]) == Some(UpToNul(argv[i]))
    requires forall i :: 0 <= i < |pairs| ==> pairs[i].0 != AT_NULL
    requires forall a :: a in cells ==> a <= MAX_U64
    ensures ParseStack(cells, sp, w) == Some(StartInfo(ReadBack(argv), pairs))
  {
    var end := ParseArgs(cells, sp, ptrs, argv, Flatten(pairs) + [AT_NULL, 0], w);
    ParseAuxvOf(cells, end + w + w, pairs, w);
    ParseParts(cells, sp, |ptrs|, ReadBack(argv), end, pairs, w);
  }

  /** Parsing the finished stack gives back the arguments, each up to its first NUL, and the
      auxiliary vector, pair by pair. */
  lemma ParseBuilt(cells: Cells, sp0: int, argv: seq<seq<Byte>>, ptrs: seq<nat>, pairs: seq<Pair>, sp: int, w: nat)
    requires IsWidth(w) && 0 <= Bottom(sp0, argv) && sp0 - 16 <= MAX_U64
    requires ptrs == Pointers(argv, sp0 - 16)
    requires WordSized(Frame(ptrs, pairs), w)
    requires forall i :: 0 <= i < |pairs| ==> pairs[i].0 != AT_NULL
    requires forall a :: a in cells ==> a <= MAX_U64
    requires Built(cells, sp0, argv, Frame(ptrs, pairs), sp, w)
    ensures ParseStack(cells, sp, w) == Some(StartInfo(ReadBack(argv), pairs))
  {
    EncodedWords(cells, sp, Frame(ptrs, pairs), w);
    forall i | 0 <= i < |ptrs| ensures CString(cells, ptrs[i]) == Some(UpToNul(argv[i])) {
      StringsInPlace(cells, argv, sp0 - 16, RANDOM_BYTES, i);
    }
    ParseWords(cells, sp, ptrs, argv, pairs, w);
  }

  // ---- building it

  /** Only addresses of [lo, hi) may differ. */
  ghost predicate SameOutside(was: Cells, now: Cells, lo: int, hi: int) {
    now.Keys == was.Keys && forall a :: a in was && !(lo <= a < hi) ==> now[a] == was[a]
  }

  lemma WriteIsInside(was: Cells, now: Cells, lo: int, hi: int, addr: int, data: seq<Byte>)
    requires SameOutside(was, now, lo, hi)
    requires lo <= addr && addr + |data| <= hi
    ensures SameOutside(was, WriteCells(now, addr, data), lo, hi)
    ensures forall a :: a in now <==> a in was
  {
    assert forall a :: a in now <==> a in now.Keys;
    assert WriteCells(now, addr, data).Keys == now.Keys;
  }

  function Reversed(s: seq<U64>): (r: seq<U64>)
    ensures |r| == |s|
  {
    if s == [] then [] else Reversed(s[1..]) + [s[0]]
  }

  lemma {:induction false} ReversedAppend(s: seq<U64>, x: U64)
    ensures Reversed(s + [x]) == [x] + Reversed(s)
  {
    if s == [] {
      assert s + [x] == [x];
    } else {
      assert (s + [x])[1..] == s[1..] + [x];
      ReversedAppend(s[1..], x);
    }
  }

  /** The middle of the string loop: everything from `sp` up is in place. */
  ghost predicate Pushed(was: Cells, now: Cells, sp0: int, sp: int, done: seq<seq<Byte>>, ptrs: seq<U64>) {
    && sp == Bottom(sp0, done)
    && AllMapped(was, sp, sp0 - sp) && SameOutside(was, now, sp, sp0)
    && HoldsAt(now, sp, Packed(done) + RANDOM_BYTES)
    && Reversed(ptrs) == Pointers(done, sp0 - 16)
  }

  lemma PushStart(was: Cells, sp0: int)
    requires AllMapped(was, sp0 - 16, 16)
    ensures Pushed(was, WriteCells(was, sp0 - 16, RANDOM_BYTES), sp0, sp0 - 16, [], [])
  {
    HoldsWritten(was, sp0 - 16, RANDOM_BYTES);
    assert Packed([]) + RANDOM_BYTES == RANDOM_BYTES;
    assert SameOutside(was, was, sp0 - 16, sp0);
    WriteIsInside(was, was, sp0 - 16, sp0, sp0 - 16, RANDOM_BYTES);
  }

  lemma MappedBelow(was: Cells, now: Cells, lo: int, sp: int, hi: int)
    requires lo <= sp <= hi && AllMapped(was, sp, hi - sp) && now.Keys == was.Keys
    ensures AllMapped(was, lo, hi - lo) <==> AllMapped(now, lo, sp - lo)
  {
    assert forall a :: a in now <==> a in now.Keys;
    MappedSplit(was, lo, sp, hi);
  }

  lemma PushOne(was: Cells, now: Cells, sp0: int, sp: U64, done: seq<seq<Byte>>, ptrs: seq<U64>, arg: seq<Byte>)
    requires Pushed(was, now, sp0, sp, done, ptrs) && |arg| + 1 <= sp
    requires AllMapped(now, sp - |arg| - 1, |arg| + 1)
    ensures Pushed(was, WriteCells(now, sp - |arg| - 1, arg + [0]), sp0, sp - |arg| - 1, [arg] + done,
        ptrs + [sp - |arg| - 1])
  {
    var at, data := sp - |arg| - 1, arg + [0];
    MappedBelow(was, now, at, sp, sp0);
    assert ([arg] + done)[1..] == done;
    assert Packed([arg] + done) == data + Packed(done);
    HoldsBelow(now, at, data, Packed(done) + RANDOM_BYTES);
    assert data + (Packed(done) + RANDOM_BYTES) == Packed([arg] + done) + RANDOM_BYTES;
    assert SameOutside(was, now, at, sp0);
    WriteIsInside(was, now, at, sp0, at, data);
    ReversedAppend(ptrs, at);
    assert Pointers([arg] + done, sp0 - 16) == [at] + Pointers(done, sp0 - 16);
  }

  lemma PushedLower(argv: seq<seq<Byte>>, i: nat)
    requires i <= |argv|
    ensures |Packed(argv)| >= |Packed(argv[i..])|
    ensures i < |argv| ==> |Packed(argv[i..])| == |argv[i]| + 1 + |Packed(argv[i + 1..])|
  {
    if i != 0 {
      PushedLower(argv[1..], i - 1);
      assert argv[1..][i - 1..] == argv[i..];
      if i < |argv| {
        assert argv[i..][1..] == argv[i + 1..];
      }
    }
  }

  /** One turn of the loop: there is room for string i, it goes in exactly when its place is mapped,
      and when the whole stack is mapped that is so. */
  lemma PushTurn(was: Cells, now: Cells, sp0: int, above: U64, argv: seq<seq<Byte>>, i: nat, ptrs: seq<U64>)
    requires i < |argv| && 0 <= Bottom(sp0, argv) && Pushed(was, now, sp0, above, argv[i + 1..], ptrs)
    ensures |argv[i]| + 1 <= above
    ensures var sp := above - |argv[i]| - 1;
      if AllMapped(now, sp, |argv[i]| + 1) then
        Pushed(was, WriteCells(now, sp, argv[i] + [0]), sp0, sp, argv[i..], ptrs + [sp])
      else !AllMapped(was, Bottom(sp0, argv), sp0 - Bottom(sp0, argv))
  {
    PushedLower(argv, i);
    var sp := above - |argv[i]| - 1;
    MappedBelow(was, now, sp, above, sp0);
    MappedSplit(was, Bottom(sp0, argv), sp, sp0);
    if AllMapped(now, sp, |argv[i]| + 1) {
      PushOne(was, now, sp0, above, argv[i + 1..], ptrs, argv[i]);
      assert [argv[i]] + argv[i + 1..] == argv[i..];
    }
  }

  /** One string of the loop: its bytes and its NUL. */
  method PushArg(uc: Unicorn, above: U64, arg: seq<Byte>) returns (ok: bool, sp: U64)
    requires |arg| < MAX_U64
    modifies uc
    ensures |arg| + 1 <= above ==>
      && sp == above - |arg| - 1
      && (ok <==> AllMapped(old(uc.cells), sp, |arg| + 1))
      && (ok ==> uc.cells == WriteCells(old(uc.cells), sp, arg + [0]))
  {
    sp := WrapSub(above, |arg| + 1);
    ghost var before := uc.cells;
    if |arg| + 1 <= above {
      MappedSplit(before, sp, sp + |arg|, above);
      WriteTwice(before, sp, arg, [0]);
    }
    ok := uc.MemWrite(sp, arg);
    if ok {
      WriteKeepsMapped(before, sp, arg, WrapAdd(sp, |arg|), 1);
      ok := uc.MemWrite(WrapAdd(sp, |arg|), [0]);
    }
  }

  /** Random bytes and strings. The 32-bit and the 64-bit builder do the same here; the pointers of
      the former are cut to 32 bits when they become words. */
  method PushStrings(uc: Unicorn, sp0: U64, argv: seq<seq<Byte>>) returns (ok: bool, sp: U64, ptrs: seq<U64>)
    requires forall i :: 0 <= i < |argv| ==> |argv[i]| < MAX_U64
    modifies uc
    ensures 0 <= Bottom(sp0, argv) ==>
      (ok <==> AllMapped(old(uc.cells), Bottom(sp0, argv), sp0 - Bottom(sp0, argv)))
    ensures 0 <= Bottom(sp0, argv) && ok ==> Pushed(old(uc.cells), uc.cells, sp0, sp, argv, Reversed(ptrs))
    ensures ok ==> |ptrs| == |argv|
  {
    ghost var was, fits := uc.cells, 0 <= Bottom(sp0, argv);
    sp, ptrs := WrapSub(sp0, 16), [];
    if fits {
      MappedSplit(was, Bottom(sp0, argv), sp, sp0);
    }
    ok := uc.MemWrite(sp, RANDOM_BYTES);
    if !ok {
      return;
    }
    if fits {
      PushStart(was, sp0);
    }
    assert argv[|argv|..] == [];
    for i := |argv| downto 0
      invariant |ptrs| == |argv| - i
      invariant fits ==> Pushed(was, uc.cells, sp0, sp, argv[i..], ptrs)
    {
      if fits {
        PushTurn(was, uc.cells, sp0, sp, argv, i, ptrs);
      }
      ok, sp := PushArg(uc, sp, argv[i]);
      if !ok {
        return;
      }
      ptrs := ptrs + [sp];
    }
    assert argv[0..] == argv;
    ReversedTwice(ptrs);
    ptrs := Reversed(ptrs);
  }

  lemma {:induction false} ReversedTwice(s: seq<U64>)
    ensures Reversed(Reversed(s)) == s
  {
    if s != [] {
      ReversedTwice(s[1..]);
      ReversedAppend(Reversed(s[1..]), s[0]);
    }
  }

  // ---- the frame

  lemma FramePrefix(frame: seq<nat>, i: nat, w: nat)
    requires i < |frame|
    ensures EncodeAll(frame[..i + 1], w) == EncodeAll(frame[..i], w) + ToLE(frame[i], w)
    ensures |EncodeAll(frame[..i], w)| + w <= |EncodeAll(frame, w)|
  {
    assert frame[..i + 1] == frame[..i] + [frame[i]];
    EncodeAppend(frame[..i], frame[i], w);
    assert frame == frame[..i + 1] + frame[i + 1..];
    EncodeConcat(frame[..i + 1], frame[i + 1..], w);
  }

  /** The first `i` words are in place. */
  ghost predicate Framed(was: Cells, now: Cells, sp: int, frame: seq<nat>, i: nat, w: nat)
    requires i <= |frame|
  {
    var bytes := EncodeAll(frame[..i], w);
    AllMapped(was, sp, |bytes|) && now == WriteCells(was, sp, bytes)
  }

  lemma FrameStep(was: Cells, now: Cells, sp: int, frame: seq<nat>, i: nat, w: nat, p: int)
    requires i < |frame| && Framed(was, now, sp, frame, i, w) && p == sp + |EncodeAll(frame[..i], w)|
    ensures AllMapped(was, sp, |EncodeAll(frame, w)|) ==> AllMapped(now, p, w)
    ensures AllMapped(now, p, w) ==> Framed(was, WriteCells(now, p, ToLE(frame[i], w)), sp, frame, i + 1, w)
  {
    FramePrefix(frame, i, w);
    var head, word := EncodeAll(frame[..i], w), ToLE(frame[i], w);
    NextBytes(was, now, sp, p, head, word, |EncodeAll(frame, w)|);
  }

  lemma NextBytes(was: Cells, now: Cells, sp: int, p: int, head: seq<Byte>, word: seq<Byte>, total: nat)
    requires AllMapped(was, sp, |head|) && now == WriteCells(was, sp, head) && p == sp + |head|
    requires |head| + |word| <= total
    ensures AllMapped(was, sp, total) ==> AllMapped(now, p, |word|)
    ensures AllMapped(now, p, |word|) ==> AllMapped(was, sp, |head + word|)
    ensures WriteCells(now, p, word) == WriteCells(was, sp, head + word)
  {
    WriteKeepsMapped(was, sp, head, p, |word|);
    MappedSplit(was, sp, p, p + |word|);
    WriteTwice(was, sp, head, word);
  }

  lemma FrameStart(was: Cells, sp: int, frame: seq<nat>, w: nat)
    ensures Framed(was, was, sp, frame, 0, w)
  {
  }

  lemma FrameDone(was: Cells, now: Cells, sp: int, frame: seq<nat>, w: nat)
    requires Framed(was, now, sp, frame, |frame|, w)
    ensures AllMapped(was, sp, |EncodeAll(frame, w)|) && now == WriteCells(was, sp, EncodeAll(frame, w))
  {
    assert frame[..|frame|] == frame;
  }

  /** The next word still starts below the end of the address space. */
  lemma FrameNext(sp: int, frame: seq<nat>, i: nat, w: nat, p: int)
    requires 0 < w && i < |frame| && p == sp + |EncodeAll(frame[..i], w)|
    ensures p + w <= sp + |EncodeAll(frame, w)| && p + w == sp + |EncodeAll(frame[..i + 1], w)|
    ensures i + 1 < |frame| ==> p + w < sp + |EncodeAll(frame, w)|
  {
    FramePrefix(frame, i, w);
    if i + 1 < |frame| {
      FramePrefix(frame, i + 1, w);
    }
  }

  /** The words of the frame one above the other. */
  method WriteFrame(uc: Unicorn, sp: U64, frame: seq<nat>, w: nat) returns (ok: bool)
    requires IsWidth(w)
    modifies uc
    ensures sp + |EncodeAll(frame, w)| <= MAX_U64 + 1 ==> (ok <==> AllMapped(old(uc.cells), sp, |EncodeAll(frame, w)|))
    ensures sp + |EncodeAll(frame, w)| <= MAX_U64 + 1 && ok ==>
      uc.cells == WriteCells(old(uc.cells), sp, EncodeAll(frame, w))
  {
    ghost var was, fits := uc.cells, sp + |EncodeAll(frame, w)| <= MAX_U64 + 1;
    var p := sp;
    FrameStart(was, sp, frame, w);
    for i := 0 to |frame|
      invariant fits && i < |frame| ==> p == sp + |EncodeAll(frame[..i], w)|
      invariant fits ==> Framed(was, uc.cells, sp, frame, i, w)
    {
      if fits {
        FrameNext(sp, frame, i, w, p);
        FrameStep(was, uc.cells, sp, frame, i, w, p);
      }
      ok := uc.MemWrite(p, ToLE(frame[i], w));
      if !ok {
        return;
      }
      p := WrapAdd(p, w);
    }
    if fits {
      FrameDone(was, uc.cells, sp, frame, w);
    }
    ok := true;
  }

  /** "valkyrie-rs", the name of last resort. */
  const FALLBACK_NAME: seq<Byte> := [0x76, 0x61, 0x6C, 0x6B, 0x79, 0x72, 0x69, 0x65, 0x2D, 0x72, 0x73]

  /** `guest_argv`: the configured arguments, or the one name there is. */
  function GuestArgv(configured: seq<seq<Byte>>, execfn: Option<seq<Byte>>): (argv: seq<seq<Byte>>)
    ensures argv != [] && (configured != [] ==> argv == configured)
    ensures configured == [] && execfn.Some? ==> argv == [execfn.value]
    ensures configured == [] && execfn.None? ==>
      argv == [[0x76, 0x61, 0x6C, 0x6B, 0x79, 0x72, 0x69, 0x65, 0x2D, 0x72, 0x73]]
  {
    if configured != [] then configured
    else [match execfn case Some(name) => name case None => FALLBACK_NAME]
  }

  ghost predicate Bounded(cells: Cells) {
    forall a :: a in cells ==> 0 <= a <= MAX_U64
  }

  /** Room for everything between 0 and the initial stack pointer, which a word can express. */
  ghost predicate HasRoom(sp0: U64, argv: seq<seq<Byte>>, info: Option<AuxInfo>, w: nat) {
    0 <= Bottom(sp0, argv) && 0 <= FinalSp(sp0, argv, info, w) && sp0 <= Pow256(w)
  }

  /** The two ranges that are written. */
  ghost predicate StackMapped(cells: Cells, sp0: U64, argv: seq<seq<Byte>>, info: Option<AuxInfo>, w: nat)
    requires HasRoom(sp0, argv, info, w)
  {
    && AllMapped(cells, Bottom(sp0, argv), sp0 - Bottom(sp0, argv))
    && AllMapped(cells, FinalSp(sp0, argv, info, w), FrameLength(|argv|, info) * w)
  }

  function CutAll(ptrs: seq<U64>, w: nat): (words: seq<nat>)
    ensures |words| == |ptrs| && forall i :: 0 <= i < |ptrs| ==> words[i] == Cut(ptrs[i], w)
  {
    if ptrs == [] then [] else [Cut(ptrs[0], w)] + CutAll(ptrs[1..], w)
  }

  lemma {:induction false} CutAllSame(ptrs: seq<U64>, w: nat)
    requires IsWidth(w) && forall i :: 0 <= i < |ptrs| ==> ptrs[i] < Pow256(w)
    ensures CutAll(ptrs, w) == ptrs
  {
    Widths();
    if ptrs != [] {
      CutAllSame(ptrs[1..], w);
    }
  }

  /** With the stack below 4 GiB on the 32-bit guest, cutting loses nothing. */
  lemma PointersFit(sp0: U64, argv: seq<seq<Byte>>, ptrs: seq<U64>, w: nat)
    requires IsWidth(w) && 0 <= Bottom(sp0, argv) && sp0 <= Pow256(w) && ptrs == Pointers(argv, sp0 - 16)
    ensures CutAll(ptrs, w) == ptrs && WordSized(ptrs, w)
  {
    forall i | 0 <= i < |ptrs| ensures ptrs[i] < Pow256(w) {
      PointerBounds(argv, sp0 - 16, i);
    }
    CutAllSame(ptrs, w);
  }

  lemma {:induction false} PackedCount(argv: seq<seq<Byte>>)
    ensures |argv| <= |Packed(argv)|
  {
    if argv != [] {
      PackedCount(argv[1..]);
    }
  }

  lemma FrameIsSized(ptrs: seq<nat>, pairs: seq<Pair>, w: nat)
    requires IsWidth(w) && |ptrs| < Pow256(w) && WordSized(ptrs, w) && WordSized(Flatten(pairs), w)
    ensures WordSized(Frame(ptrs, pairs), w)
  {
    var tail := Flatten(pairs) + [AT_NULL, 0];
    assert WordSized(tail, w);
    assert WordSized([0] + tail, w);
    assert WordSized([0] + ([0] + tail), w);
    assert WordSized(ptrs + ([0] + ([0] + tail)), w);
  }

  lemma FrameFits(sp0: U64, argv: seq<seq<Byte>>, info: Option<AuxInfo>, creds: Creds, ptrs: seq<U64>, w: nat)
    requires IsWidth(w) && HasRoom(sp0, argv, info, w) && argv != [] && ptrs == Pointers(argv, sp0 - 16)
    ensures WordSized(Frame(ptrs, AuxPairs(info, creds, Bottom(sp0, argv), sp0 - 16, w)), w)
  {
    Widths();
    PackedCount(argv);
    PointersFit(sp0, argv, ptrs, w);
    AuxPairsSized(info, creds, Bottom(sp0, argv), sp0 - 16, w);
    FrameIsSized(ptrs, AuxPairs(info, creds, Bottom(sp0, argv), sp0 - 16, w), w);
  }

  /** Writing the frame below the strings leaves both in place. */
  lemma FrameWritten(was: Cells, mid: Cells, sp0: int, argv: seq<seq<Byte>>, frame: seq<nat>, sp: int, w: nat)
    requires SameOutside(was, mid, Bottom(sp0, argv), sp0)
    requires HoldsAt(mid, Bottom(sp0, argv), Packed(argv) + RANDOM_BYTES)
    requires sp + |EncodeAll(frame, w)| <= Bottom(sp0, argv) && AllMapped(mid, sp, |EncodeAll(frame, w)|)
    ensures Built(WriteCells(mid, sp, EncodeAll(frame, w)), sp0, argv, frame, sp, w)
    ensures SameOutside(was, WriteCells(mid, sp, EncodeAll(frame, w)), sp, sp0)
  {
    var bytes := EncodeAll(frame, w);
    HoldsWritten(mid, sp, bytes);
    HoldsElsewhere(mid, Bottom(sp0, argv), Packed(argv) + RANDOM_BYTES, sp, bytes);
    assert SameOutside(was, mid, sp, sp0);
    WriteIsInside(was, mid, sp, sp0, sp, bytes);
  }

  lemma SpecialPointers(cells: Cells, sp0: int, argv: seq<seq<Byte>>)
    requires argv != [] && 0 <= Bottom(sp0, argv) && sp0 <= MAX_U64
    requires HoldsAt(cells, Bottom(sp0, argv), Packed(argv) + RANDOM_BYTES)
    ensures CString(cells, Bottom(sp0, argv)) == Some(UpToNul(argv[0]))
    ensures forall a :: sp0 - 16 <= a < sp0 ==> a in cells && cells[a].byte == 0x42
  {
    StringsInPlace(cells, argv, sp0 - 16, RANDOM_BYTES, 0);
    HoldsPart(cells, Bottom(sp0, argv), Packed(argv), RANDOM_BYTES);
    forall a | sp0 - 16 <= a < sp0 ensures a in cells && cells[a].byte == 0x42 {
      assert HoldsByte(cells, sp0 - 16 + (a - (sp0 - 16)), RANDOM_BYTES[a - (sp0 - 16)]);
    }
  }

  /** What a program finds when it starts. */
  ghost predicate Started(was: Cells, now: Cells, sp0: U64, argv: seq<seq<Byte>>, pairs: seq<Pair>, sp: int, w: nat)
    requires 0 < w && argv != []
  {
    && ParseStack(now, sp, w) == Some(StartInfo(ReadBack(argv), pairs))
    && CString(now, Bottom(sp0, argv)) == Some(UpToNul(argv[0]))
    && (forall a :: sp0 - 16 <= a < sp0 ==> a in now && now[a].byte == 0x42)
    && SameOutside(was, now, sp, sp0)
  }

  /** From the pushed strings and the written frame to what the guest reads. */
  lemma Finished(was: Cells, mid: Cells, sp0: U64, argv: seq<seq<Byte>>, ptrs: seq<U64>, pairs: seq<Pair>, sp: int,
        w: nat)
    requires IsWidth(w) && argv != [] && 0 <= Bottom(sp0, argv) && Bounded(was)
    requires SameOutside(was, mid, Bottom(sp0, argv), sp0)
    requires HoldsAt(mid, Bottom(sp0, argv), Packed(argv) + RANDOM_BYTES)
    requires ptrs == Pointers(argv, sp0 - 16) && WordSized(Frame(ptrs, pairs), w)
    requires forall i :: 0 <= i < |pairs| ==> pairs[i].0 != AT_NULL
    requires sp + |EncodeAll(Frame(ptrs, pairs), w)| <= Bottom(sp0, argv)
    requires AllMapped(mid, sp, |EncodeAll(Frame(ptrs, pairs), w)|)
    ensures Started(was, WriteCells(mid, sp, EncodeAll(Frame(ptrs, pairs), w)), sp0, argv, pairs, sp, w)
  {
    var now := WriteCells(mid, sp, EncodeAll(Frame(ptrs, pairs), w));
    FrameWritten(was, mid, sp0, argv, Frame(ptrs, pairs), sp, w);
    BoundedStays(was, now, sp, sp0);
    ParseBuilt(now, sp0, argv, ptrs, pairs, sp, w);
    SpecialPointers(now, sp0, argv);
  }

  lemma BoundedStays(was: Cells, now: Cells, lo: int, hi: int)
    requires Bounded(was) && SameOutside(was, now, lo, hi)
    ensures Bounded(now)
  {
    assert forall a :: a in now <==> a in now.Keys;
  }

  predicate UniqueKeys(auxv: seq<Pair>) {
    forall i, j :: 0 <= i < |auxv| && 0 <= j < |auxv| && auxv[i].0 == auxv[j].0 ==> i == j
  }

  /** The auxiliary vector by the numbers of the psABI, each key once, on the 32-bit guest modulo 2^32:
      program headers (3, 4, 5), interpreter base (7), entry (9), user and group ids (11 to 14), clock
      ticks (17), secure (23), file name (31); page size (6) and random bytes (25) in any case. */
  ghost predicate VectorIs(auxv: seq<Pair>, info: Option<AuxInfo>, creds: Creds, execfn: int, random: int, w: nat) {
    var m := if w == 4 then 0x1_0000_0000 else 0x1_0000_0000_0000_0000;
    && UniqueKeys(auxv) && (6, 4096) in auxv && (25, random) in auxv
    && match info
       case None => |auxv| == 2
       case Some(i) =>
         && |auxv| == 14
         && (3, i.phdr % m) in auxv && (4, i.phent % m) in auxv && (5, i.phnum % m) in auxv
         && (7, i.base % m) in auxv && (9, i.entry % m) in auxv
         && (11, creds.uid) in auxv && (12, creds.euid) in auxv
         && (13, creds.gid) in auxv && (14, creds.egid) in auxv
         && (17, 100) in auxv && (23, 0) in auxv && (31, execfn) in auxv
  }

  predicate KeysIn(auxv: seq<Pair>, keys: set<nat>) {
    forall p :: p in auxv ==> p.0 in keys
  }

  lemma UniqueConcat(xs: seq<Pair>, ys: seq<Pair>, ks: set<nat>, ls: set<nat>)
    requires UniqueKeys(xs) && KeysIn(xs, ks) && UniqueKeys(ys) && KeysIn(ys, ls) && ks !! ls
    ensures UniqueKeys(xs + ys) && KeysIn(xs + ys, ks + ls)
  {
    var zs := xs + ys;
    forall i, j | 0 <= i < |zs| && 0 <= j < |zs| && zs[i].0 == zs[j].0 ensures i == j {
      assert if i < |xs| then zs[i] in xs else zs[i] == ys[i - |xs|] && zs[i] in ys;
      assert if j < |xs| then zs[j] in xs else zs[j] == ys[j - |xs|] && zs[j] in ys;
    }
  }

  predicate LoaderPart(auxv: seq<Pair>, i: AuxInfo, w: nat) {
    var m := if w == 4 then 0x1_0000_0000 else 0x1_0000_0000_0000_0000;
    && |auxv| == 5 && UniqueKeys(auxv) && KeysIn(auxv, {3, 4, 5, 7, 9})
    && (3, i.phdr % m) in auxv && (4, i.phent % m) in auxv && (5, i.phnum % m) in auxv
    && (7, i.base % m) in auxv && (9, i.entry % m) in auxv
  }

  predicate IdPart(auxv: seq<Pair>, creds: Creds) {
    && |auxv| == 4 && UniqueKeys(auxv) && KeysIn(auxv, {11, 12, 13, 14})
    && (11, creds.uid) in auxv && (12, creds.euid) in auxv && (13, creds.gid) in auxv && (14, creds.egid) in auxv
  }

  predicate OtherPart(auxv: seq<Pair>, execfn: int) {
    && |auxv| == 3 && UniqueKeys(auxv) && KeysIn(auxv, {17, 23, 31})
    && (17, 100) in auxv && (23, 0) in auxv && (31, execfn) in auxv
  }

  predicate LastPart(auxv: seq<Pair>, random: int) {
    && |auxv| == 2 && UniqueKeys(auxv) && KeysIn(auxv, {6, 25}) && (6, 4096) in auxv && (25, random) in auxv
  }

  lemma LoaderPairsAre(i: AuxInfo, w: nat)
    requires IsWidth(w)
    ensures LoaderPart(LoaderPairs(i, w), i, w)
  {
    var auxv := LoaderPairs(i, w);
    assert auxv[0] in auxv && auxv[1] in auxv && auxv[2] in auxv && auxv[3] in auxv && auxv[4] in auxv;
  }

  lemma IdPairsAre(creds: Creds)
    ensures IdPart(IdPairs(creds), creds)
  {
    var auxv := IdPairs(creds);
    assert auxv[0] in auxv && auxv[1] in auxv && auxv[2] in auxv && auxv[3] in auxv;
  }

  lemma OtherPairsAre(execfn: U64, w: nat)
    requires w == 4 ==> execfn < 0x1_0000_0000
    ensures OtherPart(OtherPairs(execfn, w), execfn)
  {
    var auxv := OtherPairs(execfn, w);
    assert auxv[0] in auxv && auxv[1] in auxv && auxv[2] in auxv;
  }

  lemma LastPairsAre(random: U64, w: nat)
    requires w == 4 ==> random < 0x1_0000_0000
    ensures LastPart(LastPairs(random, w), random)
  {
    var auxv := LastPairs(random, w);
    assert auxv[0] in auxv && auxv[1] in auxv;
  }

  lemma PartsMakeVector(a: seq<Pair>, b: seq<Pair>, c: seq<Pair>, d: seq<Pair>, i: AuxInfo, creds: Creds, execfn: int,
                        random: int, w: nat)
    requires LoaderPart(a, i, w) && IdPart(b, creds) && OtherPart(c, execfn) && LastPart(d, random)
    ensures VectorIs(a + (b + c) + d, Some(i), creds, execfn, random, w)
  {
    UniqueConcat(b, c, {11, 12, 13, 14}, {17, 23, 31});
    UniqueConcat(a, b + c, {3, 4, 5, 7, 9}, {11, 12, 13, 14} + {17, 23, 31});
    UniqueConcat(a + (b + c), d, {3, 4, 5, 7, 9} + ({11, 12, 13, 14} + {17, 23, 31}), {6, 25});
    var auxv := a + (b + c) + d;
    assert forall p :: p in a || p in b || p in c || p in d ==> p in auxv;
  }

  lemma AuxPairsAre(info: Option<AuxInfo>, creds: Creds, execfn: U64, random: U64, w: nat)
    requires IsWidth(w) && (w == 4 ==> execfn < 0x1_0000_0000 && random < 0x1_0000_0000)
    ensures VectorIs(AuxPairs(info, creds, execfn, random, w), info, creds, execfn, random, w)
  {
    LastPairsAre(random, w);
    match info
    case None =>
      assert AuxPairs(info, creds, execfn, random, w) == LastPairs(random, w);
    case Some(i) =>
      LoaderPairsAre(i, w);
      IdPairsAre(creds);
      OtherPairsAre(execfn, w);
      PartsMakeVector(LoaderPairs(i, w), IdPairs(creds), OtherPairs(execfn, w), LastPairs(random, w),
                      i, creds, execfn, random, w);
  }

  /** A guest that parses its stack finds its arguments, and such a vector. */
  ghost predicate GuestFinds(was: Cells, now: Cells, sp0: U64, argv: seq<seq<Byte>>, info: Option<AuxInfo>,
                             creds: Creds, sp: int, w: nat)
    requires 0 < w && argv != []
  {
    exists auxv: seq<Pair> ::
      && Started(was, now, sp0, argv, auxv, sp, w)
      && VectorIs(auxv, info, creds, Bottom(sp0, argv), sp0 - 16, w)
  }

  lemma FoundByGuest(was: Cells, now: Cells, sp0: U64, argv: seq<seq<Byte>>, auxv: seq<Pair>, info: Option<AuxInfo>,
                     creds: Creds, sp: int, w: nat)
    requires 0 < w && argv != [] && Started(was, now, sp0, argv, auxv, sp, w)
    requires VectorIs(auxv, info, creds, Bottom(sp0, argv), sp0 - 16, w)
    ensures GuestFinds(was, now, sp0, argv, info, creds, sp, w)
  {
  }

  /** `setup_stack_x86_64` for w == 8, `setup_stack_x86` for w == 4. With room for it, it succeeds
      exactly when there is an argument and the stack is mapped, and then a guest that parses its
      stack finds its arguments and its auxiliary vector, with AT_RANDOM and AT_EXECFN leading to
      what they should. */
  method SetupStack(vk: Valkyrie, sp0: U64, argv: seq<seq<Byte>>, info: Option<AuxInfo>, w: nat)
    returns (sp: Option<U64>)
    requires IsWidth(w) && |argv| < 0x800_0000_0000_0000
    requires forall i :: 0 <= i < |argv| ==> |argv[i]| < MAX_U64
    modifies vk.uc
    ensures sp.Some? ==> argv != []
    ensures HasRoom(sp0, argv, info, w) ==>
      (sp.Some? <==> argv != [] && StackMapped(old(vk.uc.cells), sp0, argv, info, w))
    ensures HasRoom(sp0, argv, info, w) && Bounded(old(vk.uc.cells)) && sp.Some? ==>
      && sp.value == FinalSp(sp0, argv, info, w)
      && Started(old(vk.uc.cells), vk.uc.cells, sp0, argv,
                 AuxPairs(info, vk.guest.creds, Bottom(sp0, argv), sp0 - 16, w), sp.value, w)
    ensures HasRoom(sp0, argv, info, w) && Bounded(old(vk.uc.cells)) && sp.Some? ==>
      GuestFinds(old(vk.uc.cells), vk.uc.cells, sp0, argv, info, vk.guest.creds, sp.value, w)
  {
    ghost var was, room := vk.uc.cells, HasRoom(sp0, argv, info, w);
    var randomPtr := WrapSub(sp0, 16);
    var ok, bottom, ptrs := PushStrings(vk.uc, sp0, argv);
    if !ok {
      return None;
    }
    if ptrs == [] {
      return None;
    }
    ghost var mid := vk.uc.cells;
    var execfnPtr := ptrs[0];
    var pairs := AuxPairs(info, vk.guest.creds, execfnPtr, randomPtr, w);
    var frame := Frame(CutAll(ptrs, w), pairs);
    FrameSize(|frame|, w);
    var final := WrapSub(bottom - bottom % 16, |frame| * w);
    if room {
      ReversedTwice(ptrs);
      FrameReady(sp0, argv, info, vk.guest.creds, ptrs, pairs, frame, w);
      FrameSpot(was, mid, sp0, argv, info, frame, w, final);
    }
    ok := WriteFrame(vk.uc, final, frame, w);
    if !ok {
      return None;
    }
    if room && Bounded(was) {
      Finished(was, mid, sp0, argv, ptrs, pairs, final, w);
      SpecialAddresses(sp0, argv, info, w);
      AuxPairsAre(info, vk.guest.creds, execfnPtr, randomPtr, w);
      FoundByGuest(was, vk.uc.cells, sp0, argv, pairs, info, vk.guest.creds, final, w);
    }
    return Some(final);
  }

  lemma SpecialAddresses(sp0: U64, argv: seq<seq<Byte>>, info: Option<AuxInfo>, w: nat)
    requires HasRoom(sp0, argv, info, w)
    ensures w == 4 ==> Bottom(sp0, argv) < 0x1_0000_0000 && sp0 - 16 < 0x1_0000_0000
  {
    Widths();
  }

  /** The frame the builder has computed is the one of the layout. */
  lemma FrameReady(sp0: U64, argv: seq<seq<Byte>>, info: Option<AuxInfo>, creds: Creds,
                   ptrs: seq<U64>, pairs: seq<Pair>, frame: seq<nat>, w: nat)
    requires IsWidth(w) && HasRoom(sp0, argv, info, w) && argv != [] && ptrs == Pointers(argv, sp0 - 16)
    requires pairs == AuxPairs(info, creds, ptrs[0], sp0 - 16, w) && frame == Frame(CutAll(ptrs, w), pairs)
    ensures ptrs[0] == Bottom(sp0, argv) && frame == Frame(ptrs, pairs) && WordSized(frame, w)
    ensures |frame| == FrameLength(|argv|, info)
    ensures forall i :: 0 <= i < |pairs| ==> pairs[i].0 != AT_NULL
  {
    PointersFit(sp0, argv, ptrs, w);
    FrameFits(sp0, argv, info, creds, ptrs, w);
    AuxPairsSized(info, creds, ptrs[0], sp0 - 16, w);
  }

  /** It lies right below the strings, and pushing those has not changed what is mapped there. */
  lemma FrameSpot(was: Cells, mid: Cells, sp0: U64, argv: seq<seq<Byte>>, info: Option<AuxInfo>, frame: seq<nat>,
                  w: nat, final: int)
    requires HasRoom(sp0, argv, info, w) && |frame| == FrameLength(|argv|, info) && mid.Keys == was.Keys
    requires AllMapped(was, Bottom(sp0, argv), sp0 - Bottom(sp0, argv))
    requires 0 <= |frame| * w <= MAX_U64 && 0 <= FrameEnd(sp0, argv)
    requires final == WrapSub(FrameEnd(sp0, argv), |frame| * w)
    ensures final == FinalSp(sp0, argv, info, w) && final + |EncodeAll(frame, w)| <= Bottom(sp0, argv)
    ensures AllMapped(mid, final, |EncodeAll(frame, w)|) <==> StackMapped(was, sp0, argv, info, w)
  {
    EncodeLength(frame, w);
    assert forall a :: a in mid <==> a in mid.Keys;
  }

  lemma FrameSize(n: nat, w: nat)
    requires IsWidth(w) && n < 0x800_0000_0000_0000 + 40
    ensures 0 <= n * w <= MAX_U64
  {
  }
}
