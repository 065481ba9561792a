/** NVLink bit error rates: a packed mantissa x 10^-exponent, and how the threshold tests compare
    with the rates they stand for. */
module Ber {
  import opened Counters

  const ZERO_MANTISSA := 15
  const ZERO_EXPONENT := 255
  const EFFECTIVE_EXPONENT := 12
  const SYMBOL_FLOOR := 255
  const SYMBOL_FLOOR_SUMMED := 238

  datatype Rate = Rate(mantissa: int, exponent: int)

  /** The exponent is the low eight bits, the mantissa the four above them. */
  function BerParts(v: u64): Rate {
    Rate(v / 0x100 % 0x10, v % 0x100)
  }

  predicate EffectiveBerExceeded(b: Rate) {
    if b == Rate(ZERO_MANTISSA, ZERO_EXPONENT) then false
    else if b.exponent == EFFECTIVE_EXPONENT then b.mantissa > 1
    else if b.exponent == EFFECTIVE_EXPONENT + 1 then b.mantissa > 10
    else b.exponent < EFFECTIVE_EXPONENT
  }

  predicate SymbolBerExceeded(b: Rate, floor: int) {
    b.mantissa != 0 && b.exponent < floor
  }

  function Pow10(n: nat): (p: int)
    ensures p >= 1
  {
    if n == 0 then 1 else 10 * Pow10(n - 1)
  }

  lemma {:induction false} Pow10Grows(m: nat, n: nat)
    ensures m < n ==> 10 * Pow10(m) <= Pow10(n)
    decreases n
  {
    if m < n - 1 {
      Pow10Grows(m, n - 1);
    }
  }

  /** A packed rate is m x 10^-e with 0 <= m < 16, and repacking gives the low bits back. */
  lemma PartsArePacked(v: u64)
    ensures 0 <= BerParts(v).mantissa < 16 && 0 <= BerParts(v).exponent < 256
    ensures BerParts(v).mantissa * 0x100 + BerParts(v).exponent == v % 0x1000
  {
  }

  const ZERO := Rate(ZERO_MANTISSA, ZERO_EXPONENT)

  /** The rate is Significand x 10^-exponent: one packed rate encodes zero. */
  function Significand(b: Rate): int {
    if b == ZERO then 0 else b.mantissa
  }

  /** The rate is above 10^-limit, in whole numbers. */
  predicate IsAbove(b: Rate, limit: nat)
    requires b.exponent >= 0
  {
    Significand(b) * Pow10(limit) > Pow10(b.exponent)
  }

  predicate IsAtOrAbove(b: Rate, limit: nat)
    requires b.exponent >= 0
  {
    Significand(b) * Pow10(limit) >= Pow10(b.exponent)
  }

  lemma ScalingKeepsOrder(m: int, n: int, unit: int)
    requires unit >= 1
    ensures m * unit >= n * unit <==> m >= n
  {
  }

  /** The effective test is the comparison with 10^-12, except on a zero mantissa below exponent
      12, a rate of zero that the test takes as exceeded. */
  lemma EffectiveTestIsExact(v: u64)
    ensures var b := BerParts(v);
            (EffectiveBerExceeded(b) <==> IsAbove(b, EFFECTIVE_EXPONENT))
            <==> !(b.mantissa == 0 && b.exponent < EFFECTIVE_EXPONENT)
  {
    var b := BerParts(v);
    PartsArePacked(v);
    var unit := Pow10(EFFECTIVE_EXPONENT);
    Pow10Grows(b.exponent, EFFECTIVE_EXPONENT);
    Pow10Grows(EFFECTIVE_EXPONENT + 1, b.exponent);
    assert Pow10(EFFECTIVE_EXPONENT + 1) == 10 * unit;
    hide Pow10, BerParts;
    ScalingKeepsOrder(b.mantissa, 1, unit);
    ScalingKeepsOrder(1, b.mantissa, unit);
    ScalingKeepsOrder(10, b.mantissa, unit);
    ScalingKeepsOrder(15, b.mantissa, unit);
  }

  /** The symbol test is the comparison with 10^-(floor-1) that its message states, except at the
      floor itself, where a mantissa of 10 or more is a rate that is not below the limit and passes,
      unless it encodes zero. A floor above 255, which is never used, would also fail that zero. */
  lemma SymbolTestIsExact(v: u64, floor: int)
    requires 0 < floor
    ensures var b := BerParts(v);
            (SymbolBerExceeded(b, floor) <==> IsAtOrAbove(b, floor - 1))
            <==> !(b.exponent == floor && b.mantissa >= 10 && b != ZERO) && !(b == ZERO && floor > ZERO_EXPONENT)
  {
    var b := BerParts(v);
    PartsArePacked(v);
    var unit := Pow10(floor - 1);
    Pow10Grows(b.exponent, floor - 1);
    Pow10Grows(floor, b.exponent);
    assert Pow10(floor) == 10 * unit;
    hide Pow10, BerParts;
    ScalingKeepsOrder(b.mantissa, 1, unit);
    ScalingKeepsOrder(b.mantissa, 10, unit);
    ScalingKeepsOrder(15, b.mantissa, unit);
  }
}
