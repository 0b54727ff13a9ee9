/** Shared value types: optional values, the JVM integer widths the source
    uses (`Byte`, `Int`, `Long`) and unsigned octets for encoded text. */
module Types {

  datatype Option<+T> = None | Some(value: T) {
    predicate IsFailure() { None? }

    function PropagateFailure<U>(): Option<U>
      requires None?
    {
      None
    }

    function Extract(): T
      requires Some?
    {
      value
    }
  }

  /** An octet as written to the wire (0..255). */
  type uint8 = b: int | 0 <= b < 256

  /** Kotlin `Byte`: a signed two's-complement octet. */
  type int8 = b: int | -128 <= b < 128

  const MinInt32: int := -0x8000_0000
  const MaxInt32: int := 0x7FFF_FFFF
  const MinInt64: int := -0x8000_0000_0000_0000
  const MaxInt64: int := 0x7FFF_FFFF_FFFF_FFFF

  /** Kotlin `Int`. */
  type int32 = x: int | MinInt32 <= x <= MaxInt32

  /** Kotlin `Long`. */
  type int64 = x: int | MinInt64 <= x <= MaxInt64

  /** The bit pattern of a signed byte read as an unsigned octet. */
  function ToUnsigned(b: int8): (u: uint8)
    ensures u % 256 == b % 256
    ensures 0 <= b ==> u == b
  {
    if b < 0 then b + 256 else b
  }
}
