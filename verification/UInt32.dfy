// C's uint32_t and int32_t arithmetic on mathematical integers.
module UInt32 {

  const MAX: nat := 0xFFFF_FFFF

  /** The value of x after conversion to uint32_t. */
  function Wrap(x: int): (r: nat)
    ensures r <= MAX
    ensures 0 <= x <= MAX ==> r == x
  {
    x % 0x1_0000_0000
  }

  function Inc(x: nat): nat {
    if x == MAX then 0 else x + 1
  }

  function Dec(x: nat): nat {
    if x == 0 then MAX else x - 1
  }

  /** The value of a uint32_t after conversion to int32_t (two's complement). */
  function AsInt32(x: nat): int {
    if x < 0x8000_0000 then x else x - 0x1_0000_0000
  }

  /** Steps from cycle `from` forward to cycle `to` on the 32-bit clock. */
  function Distance(from: nat, to: nat): nat
    requires from <= MAX && to <= MAX
  {
    if from <= to then to - from else to + 0x1_0000_0000 - from
  }

  /** `Wrap` turns unbounded sums into the wrapping increments and decrements. */
  lemma WrapSteps(x: int)
    ensures Inc(Wrap(x)) == Wrap(x + 1)
    ensures Dec(Wrap(x)) == Wrap(x - 1)
  {
  }

  lemma WrapInside(x: int, y: int)
    ensures Wrap(Wrap(x) + y) == Wrap(x + y)
  {
  }
}
