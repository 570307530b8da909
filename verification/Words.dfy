/**
 * Unsigned 64-bit words and the address arithmetic shared by the memory modules.
 * Bit masks of the form `& ~(2^k - 1)` are written with `%`, shifts with `/`.
 */
module Words {

  const MAX_U64: int := 0xFFFF_FFFF_FFFF_FFFF

  type u64 = x: int | 0 <= x < 0x1_0000_0000_0000_0000

  /** Commitments that an arena has room for. */
  const MAX_COMMITMENTS: nat := 4096

  const ERROR_INVALID_PARAMETER: nat := 87

  datatype Option<T> = None | Some(value: T)

  ghost predicate NoRepeats<T(!new)>(s: seq<T>) {
    forall i, j | 0 <= i < j < |s| :: s[i] != s[j]
  }

  /** The page that holds an address: `address & ~(PAGE_SIZE - 1)`. */
  function PageOf(address: u64): (page: u64)
    ensures page % 0x1000 == 0 && page <= address < page + 0x1000
  {
    address - address % 0x1000
  }

  /** Least page boundary that is not below `value`; it may leave the 64-bit range. */
  function PageCeiling(value: u64): (aligned: int)
    ensures aligned % 0x1000 == 0 && value <= aligned < value + 0x1000
  {
    (value + 0xFFF) / 0x1000 * 0x1000
  }

  /** Least 64 KiB boundary that is not below `value`; it may leave the 64-bit range. */
  function GranuleCeiling(value: u64): (aligned: int)
    ensures aligned % 0x1_0000 == 0 && value <= aligned < value + 0x1_0000
  {
    var remainder := value % 0x1_0000;
    if remainder == 0 then value else value + (0x1_0000 - remainder)
  }

  predicate RangesOverlap(leftBase: int, leftBytes: int, rightBase: int, rightBytes: int) {
    leftBase < rightBase + rightBytes && rightBase < leftBase + leftBytes
  }

  predicate RangeContains(outerBase: int, outerBytes: int, innerBase: int, innerBytes: int) {
    outerBase <= innerBase && innerBase + innerBytes <= outerBase + outerBytes
  }

  /** range_contains: neither range is empty, and both end at an address. */
  predicate Contains(outerBase: u64, outerBytes: u64, innerBase: u64, innerBytes: u64) {
    && outerBytes != 0 && outerBase <= MAX_U64 - outerBytes && innerBytes != 0 && innerBase <= MAX_U64 - innerBytes
    && RangeContains(outerBase, outerBytes, innerBase, innerBytes)
  }

  lemma Scale(x: int, y: int, k: nat)
    requires x <= y
    ensures x * k <= y * k
  {
  }

  lemma SubsetSize<T>(a: set<T>, b: set<T>)
    requires a <= b
    ensures |a| <= |b|
  {
    assert b == a + (b - a);
  }
}
