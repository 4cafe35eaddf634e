/** Machine words and page arithmetic of src/common.rs, in a build without overflow checks:
    an unchecked sum wraps, a `saturating` one sticks at the largest word. */
module Words {
  const MAX_U64: int := 0xFFFF_FFFF_FFFF_FFFF
  const LAST_PAGE: int := 0xFFFF_FFFF_FFFF_F000

  type U64 = n: int | 0 <= n < 0x1_0000_0000_0000_0000
  type U32 = n: int | 0 <= n < 0x1_0000_0000
  type Byte = n: int | 0 <= n < 0x100

  datatype Option<+T> = None | Some(value: T)

  function SatAdd(a: U64, b: U64): U64 {
    if a + b > 0xFFFF_FFFF_FFFF_FFFF then 0xFFFF_FFFF_FFFF_FFFF else a + b
  }

  function SatSub(a: U64, b: U64): U64 {
    if a < b then 0 else a - b
  }

  function WrapAdd(a: U64, b: U64): U64 {
    if a + b > 0xFFFF_FFFF_FFFF_FFFF then a + b - 0x1_0000_0000_0000_0000 else a + b
  }

  function WrapSub(a: U64, b: U64): U64 {
    if a < b then a - b + 0x1_0000_0000_0000_0000 else a - b
  }

  /** The wrapping sum and difference are those of 64-bit words; the saturating ones stick at the ends. */
  lemma WordSums(a: U64, b: U64)
    ensures WrapAdd(a, b) == (a + b) % 0x1_0000_0000_0000_0000
    ensures WrapSub(a, b) == (a as int - b as int) % 0x1_0000_0000_0000_0000
    ensures SatAdd(a, b) == if a + b < 0x1_0000_0000_0000_0000 then a + b else 0x1_0000_0000_0000_0000 - 1
    ensures SatSub(a, b) == if b <= a then a - b else 0
  {
  }

  predicate Aligned(n: int) {
    n % 0x1000 == 0
  }

  lemma AlignedSums(a: int, b: int)
    requires Aligned(a) && Aligned(b)
    ensures Aligned(a + b) && Aligned(a - b)
  {
  }

  /** `align_down` at its only alignment, the page size. */
  function AlignDown(value: U64): (r: U64)
    ensures Aligned(r) && r <= value < r + 0x1000
  {
    value - value % 0x1000
  }

  /** `align_up` at its only alignment. The sum wraps within a page of the top, and then the
      result is 0 instead of the next page boundary. */
  function AlignUp(value: U64): (r: U64)
    ensures Aligned(r)
    ensures value <= LAST_PAGE ==> value <= r < value + 0x1000
    ensures value > LAST_PAGE ==> r == 0
  {
    var sum := WrapAdd(value, 0xFFF);
    sum - sum % 0x1000
  }

  /** AlignUp is the least page boundary at or above its argument exactly when one fits a word. */
  lemma AlignUpIsLeast(value: U64, bound: int)
    requires Aligned(bound)
    ensures value <= bound && value <= LAST_PAGE ==> AlignUp(value) <= bound
    ensures AlignUp(value) >= value <==> value <= LAST_PAGE
  {
  }

  /** The word a failing system call returns: `-errno` as an unsigned word. */
  function NegErrno(errno: int): U64
    requires 0 < errno < 0x1000
  {
    0x1_0000_0000_0000_0000 - errno
  }

  const ESRCH := 3
  const EIO := 5
  const EBADF := 9
  const ENOMEM := 12
  const EFAULT := 14
  const EINVAL := 22
  const ENOSYS := 38
}
