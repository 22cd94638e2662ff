/**
 * Machine-level types shared by the Rust and C++ halves of the bridge:
 * fixed-width integers (a 64-bit platform is assumed), the C constant
 * SSIZE_MAX, the Option/Result wrappers, and the exceptions C++ code can see.
 */
module Interop {

  newtype u8 = x: int | 0 <= x < 0x100
  newtype u32 = x: int | 0 <= x < 0x1_0000_0000
  newtype i32 = x: int | -0x8000_0000 <= x < 0x8000_0000
  newtype i64 = x: int | -0x8000_0000_0000_0000 <= x < 0x8000_0000_0000_0000
  newtype usize = x: int | 0 <= x < 0x1_0000_0000_0000_0000

  /** `SSIZE_MAX` of a 64-bit POSIX platform. */
  const SSIZE_MAX: int := 0x7fff_ffff_ffff_ffff

  /** 2^64: the modulus of conversions between `size_t` and `ssize_t`. */
  const WORD_MODULUS: int := 0x1_0000_0000_0000_0000

  datatype Option<+T> = None | Some(value: T)

  datatype Result<+T, +E> = Ok(value: T) | Err(error: E)

  /** A `std::io::Error` of the asynchronous byte source; its kind is opaque here. */
  datatype IoError = IoError(kind: nat)

  /**
   * The exceptions a C++ caller can observe: cxx rethrows an `Err` returned by
   * a Rust function as `rust::Error`, and the C++ code throws `std::runtime_error`.
   */
  datatype CppException = RustError(cause: IoError) | RuntimeError(what: string)
}
