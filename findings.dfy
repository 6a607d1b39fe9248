/**
 * Two builtins as their code computes them, beside the exact definitions
 * the rest of the model uses (`Builtins.CeilDiv`, `Builtins.ResizeWarns`),
 * with the inputs on which the two disagree.
 */
module Findings {
  import opened Bits
  import opened Values
  import opened Operators
  import opened Builtins

  const Scale: nat := 10_000_000_000

  /** `RoundingMode.HALF_UP` of `n / d`: to the nearest integer, halves away from zero. */
  function RoundHalfUp(n: int, d: int): int
    requires d != 0
  {
    var q := (2 * Abs(n) + Abs(d)) / (2 * Abs(d));
    if (n < 0) == (d < 0) then q else -q
  }

  /**
   * CDIV as its code computes it: both operands become decimals with ten
   * fractional digits (`BigDecimal(b, 10)` is `b / 10^10`), their quotient is
   * rounded HALF_UP to ten fractional digits, and only then rounded up to an
   * integer.
   */
  function CdivAsWritten(a: int, b: int): int
    requires b != 0
  {
    CeilDiv(RoundHalfUp(a * Scale, b), Scale)
  }

  /**
   * The decimal rounding loses a fraction below half of 10^-10: for
   * 100000000001 / 100000000000 the code gives 1 where the ceiling is 2.
   */
  lemma CdivRoundingLosesFraction()
    ensures CdivAsWritten(100_000_000_001, 100_000_000_000) == 1
    ensures CeilDiv(100_000_000_001, 100_000_000_000) == 2
  {
    assert RoundHalfUp(100_000_000_001 * Scale, 100_000_000_000) == Scale;
  }

  /** RESIZE's warning as its code states it: the value's minimum width is below the new width. */
  predicate ResizeWarnAsWritten(v: BitVec, n: nat)
  {
    MinBits(v) < n
  }

  /**
   * The comparison is inverted: resizing the 2-bit unsigned 3 to one bit
   * loses its high bit without a warning, and resizing the 1-bit unsigned 1
   * to two bits keeps its value but warns.
   */
  lemma ResizeWarningInverted()
    ensures var v := BitVec([B1, B1], false);
      !ResizeWarnAsWritten(v, 1) && ToInt(Extend(v, 1)) != ToInt(v) && ResizeWarns(v, 1)
    ensures var u := BitVec([B1], false);
      ResizeWarnAsWritten(u, 2) && ToInt(Extend(u, 2)) == ToInt(u) && !ResizeWarns(u, 2)
  {
    var v := BitVec([B1, B1], false);
    assert ToInt(v) == 3 by { assert v.bits[1..] == [B1]; }
    assert MinUnsigned(3) == 2;
    assert Extend(v, 1).bits == [B1];
    var u := BitVec([B1], false);
    assert MinUnsigned(1) == 1;
    assert Extend(u, 2).bits == [B1, B0];
    assert [B1, B0][1..] == [B0];
  }
}
