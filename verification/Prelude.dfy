/** Machine integers and the two wrapper types the rest of the model uses. */
module Prelude {

  const U64_MAX: nat := 0xFFFF_FFFF_FFFF_FFFF
  const I64_MAX: nat := 0x7FFF_FFFF_FFFF_FFFF
  const U128_MAX: nat := 0xFFFF_FFFF_FFFF_FFFF_FFFF_FFFF_FFFF_FFFF

  const NANOS_PER_SECOND := 1_000_000_000

  type u64 = n: int | 0 <= n <= U64_MAX

  type u8 = n: int | 0 <= n <= 255

  datatype Option<+T> = None | Some(value: T)

  datatype Result<+R, +E> = Ok(value: R) | Err(error: E)

  /** A store step: the state it leaves and the answer it gives. */
  datatype Outcome<+S, +R> = Outcome(state: S, result: R)

  /** `u64::saturating_add`, on operands that may already be sums. */
  function SatAdd(a: nat, b: nat): u64 {
    if a + b <= U64_MAX then a + b else U64_MAX
  }

  /** `+` on `u64` in a release build, which wraps. */
  function WrapAdd(a: u64, b: u64): u64 {
    (a + b) % (U64_MAX + 1)
  }

  /** `u64::saturating_sub`. */
  function SatSub(a: nat, b: nat): nat {
    if b <= a then a - b else 0
  }

  lemma MulMonotone(k: nat, a: int, b: int)
    requires a <= b
    ensures k * a <= k * b
  {
  }

  function Min(a: int, b: int): int {
    if a <= b then a else b
  }
}
