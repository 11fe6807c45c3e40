/** Shared building blocks: Rust's Option and Result, the fixed-width integers the
    backend uses, and the record of side effects a call performs. */
module Base {

  datatype Option<+T> = None | Some(value: T) {
    /** `opt.unwrap_or(default)` in Rust, `x || default` for a present-or-absent value in TypeScript. */
    function GetOr(default: T): T {
      match this
      case Some(v) => v
      case None => default
    }
  }

  datatype Result<+T, +E> = Success(value: T) | Failure(error: E)

  const I32_MIN: int := -0x8000_0000
  const I32_MAX: int := 0x7fff_ffff
  const I64_MIN: int := -0x8000_0000_0000_0000
  const I64_MAX: int := 0x7fff_ffff_ffff_ffff

  type i32 = x: int | I32_MIN <= x <= I32_MAX
  type i64 = x: int | I64_MIN <= x <= I64_MAX
  type u16 = x: int | 0 <= x < 0x1_0000
  type byte = bv8

  /** A UUID as the 128-bit big-endian number PostgreSQL compares it as. */
  type Uuid = x: int | 0 <= x < 0x1_0000_0000_0000_0000_0000_0000_0000_0000

  /** Two's-complement wrap-around of an arbitrary integer into `i32`
      (what a release build does on overflow). */
  function WrapI32(x: int): (r: i32)
    ensures I32_MIN <= x <= I32_MAX ==> r == x
    ensures (r - x) % 0x1_0000_0000 == 0
  {
    (x - I32_MIN) % 0x1_0000_0000 + I32_MIN
  }

  /** No element occurs twice. */
  predicate NoDuplicates<T(==)>(s: seq<T>) {
    forall i, j | 0 <= i < j < |s| :: s[i] != s[j]
  }

  /** A value together with the ordered list of external calls made to produce it. */
  datatype Traced<+T, +C> = Traced(result: T, calls: seq<C>)
}
