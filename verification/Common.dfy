/** Outcomes and bounded arithmetic shared by the model. */
module Common {
  const U32_MAX: nat := 0xFFFF_FFFF
  const U64_MAX: nat := 0xFFFF_FFFF_FFFF_FFFF

  type U32 = n: nat | n <= U32_MAX
  type U64 = n: nat | n <= U64_MAX

  newtype Byte = b: int | 0 <= b < 256
  type Bytes = seq<Byte>

  datatype Option<+T> = None | Some(value: T)

  datatype Result<+T, +E> = Ok(value: T) | Err(error: E)

  function SaturatingSub(a: nat, b: nat): (r: nat)
    ensures a >= b ==> r + b == a
    ensures a <= b ==> r == 0
  {
    if a <= b then 0 else a - b
  }

  /** Conversion into a type whose largest value is `max`, or an addition clipped there. */
  function Saturated(max: nat, x: nat): (r: nat)
    ensures r <= max && r <= x && (r == max || r == x)
  {
    if x <= max then x else max
  }

  function MinReal(a: real, b: real): (r: real)
    ensures r <= a && r <= b && (r == a || r == b)
  {
    if a <= b then a else b
  }
}
