/** `sdkmath.LegacyDec`: an 18-place fixed-point decimal. A Dec is modelled by
    its raw integer value, the decimal multiplied by 10^18. */
module LegacyDec {

  const Precision: int := 1_000_000_000_000_000_000

  /** `LegacyOneDec()`. */
  const One: int := Precision

  /** `LegacyNewDecFromInt(n)`. */
  function FromInt(n: int): int
  {
    n * Precision
  }

  /** Banker's rounding of a non-negative raw product back to 18 places. */
  function RoundHalfEven(x: nat): nat
  {
    var q, rem := x / Precision, x % Precision;
    if rem == 0 then q
    else if rem < Precision / 2 then q
    else if rem > Precision / 2 then q + 1
    else if q % 2 == 0 then q
    else q + 1
  }

  /** `chopPrecisionAndRound`: rounds the magnitude, then restores the sign. */
  function ChopPrecisionAndRound(x: int): int
  {
    if x < 0 then -(RoundHalfEven(-x) as int) else RoundHalfEven(x)
  }

  /** `LegacyDec.Mul`. */
  function Mul(a: int, b: int): int
  {
    ChopPrecisionAndRound(a * b)
  }

  /** `LegacyDec.TruncateInt`: the integer part, rounding toward zero (Go's big.Int `Quo`). */
  function TruncateInt(a: int): int
  {
    if a < 0 then -((-a) / Precision) else a / Precision
  }

  /** Dividing an exact multiple of the scale back out. */
  lemma {:induction false} DivScale(k: int)
    ensures (k * Precision) / Precision == k && (k * Precision) % Precision == 0
  {
  }

  /** Multiplying an integer-valued Dec rounds nothing: the raw product is n * b. */
  lemma {:induction false} MulIntExact(n: int, b: int)
    ensures Mul(FromInt(n), b) == n * b
  {
    var k := n * b;
    assert FromInt(n) * b == k * Precision;
    if k < 0 {
      assert -(k * Precision) == (-k) * Precision;
      DivScale(-k);
    } else {
      DivScale(k);
    }
  }

  /** For a non-negative Dec, TruncateInt is the floor: the largest integer not above it. */
  lemma {:induction false} TruncateIntIsFloor(a: int)
    requires a >= 0
    ensures TruncateInt(a) * Precision <= a < (TruncateInt(a) + 1) * Precision
  {
  }
}
