/** Machine ranges the program relies on. */
module Limits {
  /** One past the largest 32-bit number. */
  const U32_LIMIT: nat := 0x1_0000_0000

  const U64_MAX: nat := 0xFFFF_FFFF_FFFF_FFFF

  /** One past the largest BIP-32 child number that is not hardened. */
  const HARDENED_OFFSET: nat := 0x8000_0000

  function SaturatingAdd(a: nat, b: nat): nat { if a + b > U64_MAX then U64_MAX else a + b }

  lemma SubsetSize<T>(a: set<T>, b: set<T>)
    requires a <= b
    ensures |a| <= |b|
  {
    assert b == a + (b - a);
  }
}
