/** Values shared by every component of the node: identifiers, machine-integer bounds
    and the explicit checked and saturating operations of Rust's `u64` and `u128`. */
module Primitives {

  /** An account identifier. Rust compares the 20 raw bytes lexicographically, which is the
      order of the big-endian numbers they spell. */
  type Address = nat

  /** A 32-byte digest, ordered in the same way. */
  type Hash = nat

  type Byte = n: nat | n < 256

  /** A reference to a block of the consensus DAG. */
  datatype DagBlockRef = DagBlockRef(round: nat, author: Address, digest: Hash)

  const U64_MAX: nat := 0xFFFF_FFFF_FFFF_FFFF
  const U128_MAX: nat := 0xFFFF_FFFF_FFFF_FFFF_FFFF_FFFF_FFFF_FFFF

  datatype Option<+T> = None | Some(value: T)

  datatype Result<+T, +E> = Ok(value: T) | Err(error: E)

  function Min(a: int, b: int): int { if a <= b then a else b }

  function Max(a: int, b: int): int { if a <= b then b else a }

  /** `a.saturating_add(b)` on `u64`. */
  function SatAdd64(a: nat, b: nat): nat { Min(a + b, U64_MAX) }

  /** `a.saturating_mul(b)` on `u64`. */
  function SatMul64(a: nat, b: nat): nat { Min(a * b, U64_MAX) }

  /** `a.saturating_mul(b)` on `u128`. */
  function SatMul128(a: nat, b: nat): nat { Min(a * b, U128_MAX) }

  /** `a.checked_add(b)` on `u128`. */
  function CheckedAdd(a: nat, b: nat): Option<nat> {
    if a + b <= U128_MAX then Some(a + b) else None
  }

  /** `a.checked_mul(b)` on `u128`. */
  function CheckedMul(a: nat, b: nat): Option<nat> {
    if a * b <= U128_MAX then Some(a * b) else None
  }

  /** `a.checked_sub(b)` on `u128`. */
  function CheckedSub(a: nat, b: nat): Option<nat> {
    if b <= a then Some(a - b) else None
  }
}
