/** Fixed-width integers and the serial-number arithmetic of KCP.

    Sequence numbers and clock values are 32-bit and wrap around.  Two of them
    are compared by the sign of their difference.  The lemmas of this module
    say when that comparison agrees with the comparison of the unbounded
    numbers the 32-bit values stand for. */
module Serial {

  const TWO31: int := 0x8000_0000
  const TWO32: int := 0x1_0000_0000

  type byte = x: int | 0 <= x < 256
  type u16 = x: int | 0 <= x < 0x1_0000
  type u32 = x: int | 0 <= x < 0x1_0000_0000
  type i32 = x: int | -0x8000_0000 <= x < 0x8000_0000

  /** The 32-bit value that stands for an unbounded number. */
  function Wrap(n: int): (w: u32) {
    n % 0x1_0000_0000
  }

  function Add32(a: u32, b: u32): (r: u32) {
    if a + b < 0x1_0000_0000 then a + b else a + b - 0x1_0000_0000
  }

  function Sub32(a: u32, b: u32): (r: u32) {
    if a >= b then a - b else a - b + 0x1_0000_0000
  }

  /** The conversion of a 32-bit value to a signed one. */
  function Signed(a: u32): (r: i32) {
    if a < 0x8000_0000 then a else a - 0x1_0000_0000
  }

  /** `_itimediff`: the signed distance from `earlier` to `later`. */
  function Diff32(later: u32, earlier: u32): (r: i32) {
    Signed(Sub32(later, earlier))
  }

  function Min(a: int, b: int): int {
    if a <= b then a else b
  }

  function Max(a: int, b: int): int {
    if a >= b then a else b
  }

  /** Signed division of C, which rounds toward zero. */
  function TruncDiv(a: int, b: int): int
    requires b > 0
  {
    if a >= 0 then a / b else -((-a) / b)
  }

  lemma WrapAdd(n: int, d: u32)
    ensures Add32(Wrap(n), d) == Wrap(n + d)
  {}

  lemma WrapSub(a: int, b: int)
    requires 0 <= a - b < TWO32
    ensures Sub32(Wrap(a), Wrap(b)) == a - b
  {}

  /** Within a distance of 2^31, comparing wrapped numbers is comparing the
      numbers themselves. */
  lemma WrapDiff(a: int, b: int)
    requires -TWO31 <= a - b < TWO31
    ensures Diff32(Wrap(a), Wrap(b)) == a - b
  {}

  /** Moving both ends by one keeps the distance. */
  lemma SubShift(a: u32, b: u32)
    requires a != b
    ensures Sub32(a, Add32(b, 1)) == Sub32(a, b) - 1
  {}

  /** The comparison of two numbers that both lie in a window of less than
      2^31 numbers is the comparison of their offsets in the window. */
  lemma WindowDiff(a: u32, b: u32, base: u32)
    requires Sub32(a, base) < TWO31 && Sub32(b, base) < TWO31
    ensures Diff32(a, b) == Sub32(a, base) - Sub32(b, base)
  {}

  /** Quotients and remainders are unique. */
  lemma Quotient(x: int, m: int, q: int, r: int)
    requires m > 0 && x == q * m + r && 0 <= r < m
    ensures x / m == q
  {
    var d := x / m - q;
    assert d * m == r - x % m by {
      assert x == (x / m) * m + x % m;
      assert d * m == (x / m) * m - q * m;
    }
    assert d > 0 ==> d * m >= m;
    assert d < 0 ==> d * m <= -m;
  }
}
