/** Fixed-width integer ranges of the C++ types and the optional-value type used by every module. */
module Common {

  type uint8 = x: int | 0 <= x < 0x100
  type uint32 = x: int | 0 <= x < 0x1_0000_0000
  type uint64 = x: int | 0 <= x < 0x1_0000_0000_0000_0000
  type int32 = x: int | -0x8000_0000 <= x < 0x8000_0000

  const TWO_TO_32: int := 0x1_0000_0000
  const TWO_TO_64: int := 0x1_0000_0000_0000_0000

  /** A byte string (`std::string` holds bytes, not characters). */
  type Bytes = seq<uint8>

  /** A `std::shared_ptr` that may be null, or a lookup that may miss. */
  datatype Option<T> = None | Some(value: T)

  /** Unsigned 64-bit subtraction, which wraps around when `b > a`. */
  function Sub64(a: uint64, b: uint64): (r: uint64)
    ensures b <= a ==> r == a - b
    ensures a < b ==> r == a - b + TWO_TO_64
  {
    (a - b) % TWO_TO_64
  }

  /** Conversion of an unsigned 64-bit value to a 32-bit `int` (two's complement wrap). */
  function ToInt32(a: uint64): (r: int32)
    ensures a < 0x8000_0000 ==> r == a
    ensures (r - a) % TWO_TO_32 == 0
  {
    var low := a % TWO_TO_32;
    if low < 0x8000_0000 then low else low - TWO_TO_32
  }

  /** `x++` on a `uint32_t`: wraps from the largest value to 0. */
  function Increment(x: uint32): (r: uint32)
    ensures x < TWO_TO_32 - 1 ==> r == x + 1
    ensures x == TWO_TO_32 - 1 ==> r == 0
  {
    (x + 1) % TWO_TO_32
  }

  /**
   * A log after `push_back(x)` followed by erasing the front element
   * whenever that leaves more than `limit` entries.
   */
  function KeepLatest<T>(xs: seq<T>, x: T, limit: nat): (r: seq<T>)
    requires 1 <= limit
    ensures |r| == if |xs| < limit then |xs| + 1 else |xs|
    ensures r[|r| - 1] == x
    ensures r == (xs + [x])[|xs| + 1 - |r|..]
  {
    var all := xs + [x];
    if |all| > limit then all[1..] else all
  }

  /** A log of at most `limit` entries stays so, and a full one loses its oldest entry. */
  lemma KeptBounded<T>(xs: seq<T>, x: T, limit: nat)
    requires 1 <= limit && |xs| <= limit
    ensures |KeepLatest(xs, x, limit)| <= limit
    ensures |xs| == limit ==> KeepLatest(xs, x, limit) == xs[1..] + [x]
  {
  }
}
