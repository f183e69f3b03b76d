/** Small shared vocabulary: optional values, results and machine-word bounds. */
module Prelude {

  datatype Option<+T> = None | Some(value: T)

  /** 2^32: every SIP sequence number and interval of the program is a `u32`. */
  const U32: nat := 0x1_0000_0000

  function Max(a: int, b: int): int { if a < b then b else a }

  function Min(a: int, b: int): int { if a < b then a else b }

  /** `u64::saturating_sub`, also `Instant::duration_since`. */
  function SatSub(a: nat, b: nat): nat { if a < b then 0 else a - b }

  lemma {:induction false} SubsetSize<T>(a: set<T>, b: set<T>)
    requires a <= b
    ensures |a| <= |b|
  {
    if a != {} {
      var x :| x in a;
      SubsetSize(a - {x}, b - {x});
    }
  }

  function Pow2(n: nat): (r: nat)
    ensures r >= 1
  {
    if n == 0 then 1 else 2 * Pow2(n - 1)
  }
}
