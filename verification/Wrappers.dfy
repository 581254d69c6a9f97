/** Bytes, results, optional values and saturating counters shared by every component model. */
module Wrappers {

  datatype Option<+T> = None | Some(value: T)

  datatype Result<+R, +E> = Success(value: R) | Failure(error: E)

  type Byte = b: int | 0 <= b < 256

  /** Longest Rust slice or vector, in bytes. */
  const ISIZE_MAX: nat := 0x7FFF_FFFF_FFFF_FFFF

  /** A Rust slice: never longer than `isize::MAX` bytes. */
  type Slice = s: seq<Byte> | |s| <= ISIZE_MAX

  /** Largest value of the source's `u64` (and of `usize` on a 64-bit host). */
  const U64_MAX: nat := 0xFFFF_FFFF_FFFF_FFFF

  function Min(a: nat, b: nat): nat {
    if a <= b then a else b
  }

  /** `u64::saturating_add`. */
  function SatAdd(a: nat, b: nat): nat {
    Min(a + b, U64_MAX)
  }

  /** `u64::saturating_sub`. */
  function SatSub(a: nat, b: nat): nat {
    if b <= a then a - b else 0
  }
}
