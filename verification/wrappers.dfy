/** Failure-carrying results. The Rust code reports bad input by panicking;
    the model turns each panic into an explicit value naming its cause. */
module Wrappers {

  datatype Option<+T> = None | Some(value: T)

  /** Why an operation panicked. */
  datatype Panic =
    | IndexOutOfBounds   // a Vec/slice index or `unwrap` on a missing element
    | ElementTooWide     // a requested element type is wider than its storage
    | SliceTooLarge      // more data than the destination slice holds
    | FormatMismatch     // a typed accessor used on an attribute of another kind
    | DivisionByZero     // an integer division by a zero stride

  /** The result of an operation that returns a value or panics. */
  datatype Result<+T> = Ok(value: T) | Panicked(reason: Panic)

  /** The result of an operation that returns nothing or panics. */
  datatype Outcome = Completed | Aborted(reason: Panic)
}

/** Fixed-width unsigned integers of the source, as subsets of `int`. */
module Ints {

  const U8_MODULUS: int := 0x100
  const U32_MODULUS: int := 0x1_0000_0000
  /** `usize` on a 64-bit target. */
  const USIZE_MODULUS: int := 0x1_0000_0000_0000_0000

  type u8 = x: int | 0 <= x < U8_MODULUS
  type u32 = x: int | 0 <= x < U32_MODULUS

  /** `n as u32`: keeps the low 32 bits. */
  function WrapU32(n: int): u32 { n % U32_MODULUS }

  /** An 8-bit value read as two's-complement `i8`. */
  function AsI8(b: u8): int { if b < 128 then b else b - 256 }
}
