/** The restaking module's parameter: the auto-restake ratio, a Dec in [0, 1]. */
module Params {
  import opened Types
  import LegacyDec

  /** `DefaultAutoRestakeRatio` ("0.25") on the 10^18 scale. */
  const DefaultAutoRestakeRatio: int := 250_000_000_000_000_000

  /** `DefaultAutoRestakeRatioDec()`: a quarter of one. */
  function DefaultAutoRestakeRatioDec(): (r: int)
    ensures 4 * r == LegacyDec.One
  {
    DefaultAutoRestakeRatio
  }

  /** `ValidateAutoRestakeRatio`: `nil` exactly when the ratio is neither negative nor above one. */
  function ValidateAutoRestakeRatio(r: int): (err: Option<Error>)
    ensures err.None? <==> 0 <= r <= LegacyDec.One
    ensures err.Some? ==> err.value == RatioOutOfRange
  {
    if r < 0 || r > LegacyDec.One then Some(RatioOutOfRange) else None
  }

  /** The default ratio passes its own validation. */
  lemma DefaultRatioIsValid()
    ensures ValidateAutoRestakeRatio(DefaultAutoRestakeRatioDec()).None?
  {
  }

  /** The boundaries 0 and 1 are accepted; -0.01 and 1.01, and the nearest raw
      values outside the range, are rejected. */
  lemma ValidationBoundaries()
    ensures ValidateAutoRestakeRatio(0).None?
    ensures ValidateAutoRestakeRatio(LegacyDec.One).None?
    ensures ValidateAutoRestakeRatio(-1) == Some(RatioOutOfRange)
    ensures ValidateAutoRestakeRatio(LegacyDec.One + 1) == Some(RatioOutOfRange)
    ensures ValidateAutoRestakeRatio(-10_000_000_000_000_000) == Some(RatioOutOfRange)
    ensures ValidateAutoRestakeRatio(1_010_000_000_000_000_000) == Some(RatioOutOfRange)
  {
  }
}
