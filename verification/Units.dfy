/** The fixed-point scales of `clients/js/src/constants.ts`, and the two directions of a trade. */
module Units {
  const QUOTE_PRECISION: nat := 1_000_000
  const BASE_PRECISION: nat := 1_000_000_000
  const PRICE_PRECISION: nat := 1_000_000_000
  const BPS_PRECISION: nat := 10_000

  /** `notional = size * price / NOTIONAL_DIVISOR`. */
  const NOTIONAL_DIVISOR: nat := 1_000_000_000_000

  datatype Direction = Long | Short
}
