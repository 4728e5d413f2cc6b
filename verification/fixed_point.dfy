/**
 * The machine arithmetic `solar_trip_time` relies on: signed 64-bit raw
 * values of the `I32F32` fixed-point type (32 integer bits, 32 fractional
 * bits) and Rust's `i32` / `u32`. Every operation that the source unwraps or
 * that can overflow returns an `Option`; wrap-around casts are written out.
 */
module FixedPoint {
  import opened Wrappers

  predicate InInt64(x: int) {
    -0x8000_0000_0000_0000 <= x < 0x8000_0000_0000_0000
  }

  predicate InInt32(x: int) {
    -0x8000_0000 <= x < 0x8000_0000
  }

  type int64 = x: int | -0x8000_0000_0000_0000 <= x < 0x8000_0000_0000_0000
  type int32 = x: int | -0x8000_0000 <= x < 0x8000_0000
  type uint32 = x: int | 0 <= x < 0x1_0000_0000

  /** The raw bits of an `I32F32` value: the value times 2^32. */
  type Fixed = int64

  /** The raw bits of `I32F32` 1.0. */
  const One: int := 0x1_0000_0000

  function AbsInt(x: int): nat {
    if x < 0 then -x else x
  }

  /** Integer division rounding toward zero, as Rust's `/` on integers does. */
  function TruncDiv(a: int, b: int): (r: int)
    requires b != 0
    ensures AbsInt(r) * AbsInt(b) <= AbsInt(a) < (AbsInt(r) + 1) * AbsInt(b)
    ensures r != 0 ==> (r < 0 <==> (a < 0) != (b < 0))
  {
    var q := AbsInt(a) / AbsInt(b);
    DivBracket(AbsInt(a), AbsInt(b));
    if (a < 0) == (b < 0) then q else -q
  }

  /** The quotient of natural numbers brackets the dividend between two multiples of the divisor. */
  lemma DivBracket(x: nat, y: nat)
    requires y >= 1
    ensures (x / y) * y <= x < (x / y + 1) * y
  {
    assert x == (x / y) * y + x % y;
    assert (x / y + 1) * y == (x / y) * y + y;
  }

  /** `I32F32::checked_sub`: subtraction of raw bits, `None` on overflow. */
  function CheckedSub(a: Fixed, b: Fixed): (r: Option<Fixed>)
    ensures r.None? <==> !InInt64(a - b)
    ensures r.Some? ==> r.value + b == a
  {
    if InInt64(a - b) then Some(a - b) else None
  }

  /**
   * `I32F32::checked_div`: the quotient `a * 2^32 / b` of the raw bits, `None`
   * for a zero divisor or on overflow. Inexact quotients are truncated toward
   * zero here; the only divisor the model uses is 1.0, which is exact.
   */
  function CheckedDiv(a: Fixed, b: Fixed): (r: Option<Fixed>)
    ensures b == 0 ==> r.None?
    ensures b != 0 ==> (r.Some? <==> InInt64(TruncDiv(a * One, b)))
    ensures r.Some? ==> AbsInt(r.value) * AbsInt(b) <= AbsInt(a * One) < (AbsInt(r.value) + 1) * AbsInt(b)
    ensures r.Some? && r.value != 0 ==> (r.value < 0 <==> (a < 0) != (b < 0))
  {
    if b == 0 then None
    else
      var q := TruncDiv(a * One, b);
      if InInt64(q) then Some(q) else None
  }

  /**
   * `I32F32::checked_mul`: the product `a * b / 2^32` of the raw bits, `None`
   * on overflow. Inexact products are rounded down here; the only factor the
   * model uses is a whole number, which is exact.
   */
  function CheckedMul(a: Fixed, b: Fixed): (r: Option<Fixed>)
    ensures r.Some? ==> r.value * One <= a * b < r.value * One + One
    ensures r.None? <==> a * b < -0x8000_0000_0000_0000 * One || a * b >= 0x8000_0000_0000_0000 * One
  {
    var p := (a * b) / One;
    if InInt64(p) then Some(p) else None
  }

  /** `I32F32::abs`: overflows (panics when overflow checks are on) only for the most negative value. */
  function CheckedAbs(a: Fixed): (r: Option<Fixed>)
    ensures r.None? <==> a == -0x8000_0000_0000_0000
    ensures r.Some? ==> r.value >= 0 && (r.value == a || r.value == -a)
  {
    if InInt64(AbsInt(a)) then Some(AbsInt(a)) else None
  }

  /** `LossyInto<i32>` for `I32F32`: drops the fractional bits, rounding toward minus infinity. */
  function LossyToInt32(a: Fixed): (r: int32)
    ensures r * One <= a < (r + 1) * One
  {
    a / One
  }

  /** `d as i32` for a `u32`: reinterprets the bits, so values of 2^31 and above wrap to negative. */
  function WrapToInt32(d: uint32): (r: int32)
    ensures r == d || r == d - 0x1_0000_0000
    ensures r >= 0 <==> d < 0x8000_0000
  {
    if d < 0x8000_0000 then d else d - 0x1_0000_0000
  }

  /** `i32::checked_div`: truncating division, `None` for a zero divisor or for `i32::MIN / -1`. */
  function CheckedDivInt32(a: int32, b: int32): (r: Option<int32>)
    ensures r.None? <==> b == 0 || (a == -0x8000_0000 && b == -1)
    ensures r.Some? ==> AbsInt(r.value) * AbsInt(b) <= AbsInt(a) < (AbsInt(r.value) + 1) * AbsInt(b)
    ensures r.Some? && r.value != 0 ==> (r.value < 0 <==> (a < 0) != (b < 0))
  {
    if b == 0 || (a == -0x8000_0000 && b == -1) then None
    else
      TruncDivBound(a, b);
      Some(TruncDiv(a, b))
  }

  /** `-` on `i32`: `None` where an overflow-checked build panics. */
  function CheckedSubInt32(a: int32, b: int32): (r: Option<int32>)
    ensures r.None? <==> !InInt32(a - b)
    ensures r.Some? ==> r.value + b == a
  {
    if InInt32(a - b) then Some(a - b) else None
  }

  lemma TruncDivBound(a: int32, b: int32)
    requires b != 0 && !(a == -0x8000_0000 && b == -1)
    ensures InInt32(TruncDiv(a, b))
  {
    var q := AbsInt(a) / AbsInt(b);
    assert q <= AbsInt(a) by { DivIsAtMost(AbsInt(a), AbsInt(b)); }
    if a == -0x8000_0000 && AbsInt(b) >= 2 {
      assert q <= 0x4000_0000 by { DivByAtLeastTwo(AbsInt(a), AbsInt(b)); }
    }
  }

  lemma DivIsAtMost(x: nat, y: nat)
    requires y >= 1
    ensures x / y <= x
  {
    var q := x / y;
    assert q * y <= x;
    MulAtLeast(q, y, 1);
  }

  lemma DivByAtLeastTwo(x: nat, y: nat)
    requires y >= 2
    ensures x / y <= x / 2
  {
    var q := x / y;
    assert q * y <= x;
    MulAtLeast(q, y, 2);
  }

  lemma MulAtLeast(q: nat, y: nat, k: nat)
    requires y >= k
    ensures q * y >= q * k
  {
    assert q * y == q * k + q * (y - k);
  }

  /** Dividing by 1.0 returns its argument unchanged and never fails. */
  lemma DivByOneIsIdentity(a: Fixed)
    ensures CheckedDiv(a, One) == Some(a)
  {
    assert TruncDiv(a * One, One) == a;
  }

  /** Multiplying by a whole number `n` (raw bits `n * 2^32`) is exact: it fails exactly when `a * n` leaves 64 bits. */
  lemma MulByWholeIsExact(a: Fixed, n: int)
    requires InInt64(n * One)
    ensures CheckedMul(a, n * One) == if InInt64(a * n) then Some(a * n) else None
  {
    assert a * (n * One) == (a * n) * One;
  }
}
