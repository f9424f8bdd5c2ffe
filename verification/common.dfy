/** Shared result types and the integer conversions Rust performs implicitly. */
module Common {

  /** Rust's `Option`. */
  datatype Option<+T> = None | Some(value: T)

  /** The outcome of a computation that may abort the whole process (a Rust panic,
      including the overflow checks of a debug build). */
  datatype Outcome<+T> = Done(value: T) | Panic(reason: string)

  /** The panic message of `Option::unwrap` on `None`. */
  const UNWRAP_NONE: string := "called `Option::unwrap()` on a `None` value"

  /** The start of the panic message of `Result::unwrap` on `Err` (the error's
      own text follows it). */
  const UNWRAP_ERR: string := "called `Result::unwrap()` on an `Err` value"

  const U32_MAX: nat := 0xFFFF_FFFF
  const U32_MODULUS: nat := 0x1_0000_0000

  /** `x as u32` for a floating-point `x`: truncation toward zero, saturating at
      both ends of the u32 range. */
  function CastToU32(x: real): (r: nat)
    ensures r <= U32_MAX
    ensures x <= 0.0 ==> r == 0
    ensures 0.0 <= x < U32_MAX as real ==> r as real <= x < r as real + 1.0
    ensures x >= U32_MAX as real ==> r == U32_MAX
  {
    if x <= 0.0 then 0
    else if x >= U32_MAX as real then U32_MAX
    else x.Floor
  }

  /** `x as u32` for a signed 64-bit `x`: the low 32 bits (two's complement wrap). */
  function WrapToU32(x: int): (r: nat)
    ensures r < U32_MODULUS
    ensures 0 <= x < U32_MODULUS ==> r == x
    ensures -(U32_MODULUS as int) <= x < 0 ==> r == x + U32_MODULUS
    ensures (r - x) % U32_MODULUS == 0
  {
    x % U32_MODULUS
  }

  /** `a - b` on `usize` with the debug-build underflow check. */
  function CheckedSub(a: nat, b: nat): (r: Outcome<nat>)
    ensures r.Done? <==> b <= a
    ensures r.Done? ==> r.value + b == a
  {
    if b <= a then Done(a - b) else Panic("attempt to subtract with overflow")
  }

  /** `a.saturating_sub(b)` on `usize`. */
  function SaturatingSub(a: nat, b: nat): (r: nat)
    ensures b <= a ==> r + b == a
    ensures a < b ==> r == 0
  {
    if b <= a then a - b else 0
  }
}
