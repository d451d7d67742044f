/**
 * `prefix_to_mask`: a CIDR prefix length as a contiguous 32-bit netmask
 * (section 3.1 of RFC 4632), and `u32::count_ones`, which the listener's log
 * line uses to print the prefix length back from the mask.
 */
module Mask {
  import opened Net

  /** Bit `i` of `m`, counting from the least significant bit. */
  predicate Bit(m: bv32, i: nat)
    requires i < 32
  {
    (m >> i) & 1 == 1
  }

  /**
   * `prefix_to_mask`. A prefix above 32 would make the `u8` subtraction
   * `32 - prefix` underflow, so the caller must keep it at most 32.
   * The result has exactly the top `prefix` bits set.
   */
  function PrefixToMask(prefix: U8): (m: bv32)
    requires prefix <= 32
    ensures forall i: nat :: i < 32 ==> (Bit(m, i) <==> 32 - prefix <= i)
  {
    if prefix == 0 then 0 else (!(0 as bv32)) << (32 - prefix)
  }

  /** The number of set bits of `m` among positions `0 .. k - 1`. */
  function OnesBelow(m: bv32, k: nat): nat
    requires k <= 32
  {
    if k == 0 then 0 else OnesBelow(m, k - 1) + (if Bit(m, k - 1) then 1 else 0)
  }

  /** `u32::count_ones`. */
  function CountOnes(m: bv32): nat
  {
    OnesBelow(m, 32)
  }

  lemma {:induction false} MaskOnesBelow(prefix: U8, k: nat)
    requires prefix <= 32 && k <= 32
    ensures OnesBelow(PrefixToMask(prefix), k) == if k <= 32 - prefix then 0 else k - (32 - prefix)
  {
    if k > 0 {
      MaskOnesBelow(prefix, k - 1);
    }
  }

  /** The log line's `mask.count_ones()` gives the prefix length back. */
  lemma MaskCountOnes(prefix: U8)
    requires prefix <= 32
    ensures CountOnes(PrefixToMask(prefix)) == prefix
  {
    MaskOnesBelow(prefix, 32);
  }
}
