/** Money arithmetic in 64 bits, and the ranges an estimate is stated as. A sum that leaves 64 bits
    wraps in `div_round_half_away`, which nothing checks; everywhere else it is an error. */
module Ranges {
  import opened Basics
  import opened Amounts
  import opened Money

  type I64 = n: int | I64_MIN <= n <= I64_MAX

  datatype Range = Range(low: I64, high: I64)

  function Wrap(n: int): (w: I64) {
    (n - I64_MIN) % 0x1_0000_0000_0000_0000 + I64_MIN
  }

  function Checked(n: int): (r: Option<I64>) {
    if I64_MIN <= n <= I64_MAX then Some(n) else None
  }

  /** Division as the machine performs it: towards zero. */
  function Quotient(n: int, d: nat): (q: int)
    requires d > 0
  {
    if n >= 0 then n / d else -(-n / d)
  }

  /** `div_round_half_away` on machine integers. */
  function MachineRound(n: I64, d: I64): (q: I64)
    requires d > 0
  {
    var half := d / 2;
    QuotientFits(Wrap(n + half), d);
    QuotientFits(Wrap(n - half), d);
    if n >= 0 then Quotient(Wrap(n + half), d) else Quotient(Wrap(n - half), d)
  }

  lemma QuotientFits(n: I64, d: nat)
    requires d > 0
    ensures I64_MIN <= Quotient(n, d) <= I64_MAX
    ensures n >= 0 ==> Quotient(n, d) >= 0
    ensures n <= 0 ==> Quotient(n, d) <= 0
  {
    DivideShrinks(Magnitude(n), d);
    assert Quotient(n, d) == if n >= 0 then Magnitude(n) / d else -(Magnitude(n) / d);
  }

  lemma DivideShrinks(n: nat, d: nat)
    requires d > 0
    ensures n / d <= n
    ensures n >= d ==> n / d >= 1
  {
    var q, r := n / d, n % d;
    assert n == d * q + r;
    QuotientBounds(n, d, q, r);
  }

  lemma QuotientBounds(n: nat, d: nat, q: int, r: nat)
    requires n == d * q + r && r < d
    ensures 0 <= q <= n && (n >= d ==> q >= 1)
  {
    if q < 0 {
      Negated(d, q);
      Product(d, -q);
    } else {
      Product(d, q);
    }
  }

  lemma Negated(d: nat, q: int)
    ensures d * -q == -(d * q)
  {
  }

  lemma Product(d: nat, q: nat)
    requires d >= 1
    ensures d * q >= q && (q >= 1 ==> d * q >= d)
  {
    assert (d - 1) * q >= 0;
    assert d * q == (d - 1) * q + q;
    if q >= 1 {
      assert d * (q - 1) >= 0;
      assert d * q == d * (q - 1) + d;
    }
  }

  lemma WrapFits(n: int)
    ensures I64_MIN <= n <= I64_MAX ==> Wrap(n) == n
    ensures I64_MAX < n <= 2 * I64_MAX ==> Wrap(n) <= 0
    ensures 2 * I64_MIN <= n < I64_MIN ==> Wrap(n) >= 0
  {
  }

  /** The sum that is divided. */
  function Halved(n: I64, d: I64): (sum: int) {
    if n >= 0 then n + d / 2 else n - d / 2
  }

  /** Machine rounding is rounding to the nearest, halves away from zero, exactly when adding half
      the divisor stays inside 64 bits; past that the result has lost its sign. */
  lemma MachineRoundExactly(n: I64, d: I64)
    requires d > 0
    ensures MachineRound(n, d) == DivRoundHalfAway(n, d) <==> I64_MIN <= Halved(n, d) <= I64_MAX
    ensures Halved(n, d) > I64_MAX ==> MachineRound(n, d) <= 0 < DivRoundHalfAway(n, d)
    ensures Halved(n, d) < I64_MIN ==> MachineRound(n, d) >= 0 > DivRoundHalfAway(n, d)
  {
    hide Wrap;
    var sum := Halved(n, d);
    WrapFits(sum);
    QuotientFits(Wrap(sum), d);
    DivideShrinks(Magnitude(sum), d);
  }

  // ---- Money -------------------------------------------------------------------------------

  function MulBasisPoints(ore: I64, bp: I64): (r: Option<I64>) {
    match Checked(ore * bp)
    case None => None
    case Some(numerator) => Some(MachineRound(numerator, 10_000))
  }

  function CheckedAbs(ore: I64): (r: Option<I64>) {
    Checked(Magnitude(ore))
  }

  /** A rate applies exactly, or is refused, except within half a divisor of the ends of 64 bits:
      there the product is accepted and the result has the wrong sign. */
  lemma BasisPointsExactly(ore: I64, bp: I64)
    ensures MulBasisPoints(ore, bp).None? <==> !(I64_MIN <= ore * bp <= I64_MAX)
    ensures MulBasisPoints(ore, bp) == Some(DivRoundHalfAway(ore * bp, 10_000))
       <==> I64_MIN + 5_000 <= ore * bp <= I64_MAX - 5_000
  {
    hide MachineRound, DivRoundHalfAway;
    var product := ore * bp;
    if I64_MIN <= product <= I64_MAX {
      MachineRoundExactly(product, 10_000);
    }
  }

  // ---- Ranges ------------------------------------------------------------------------------

  function NewRange(a: I64, b: I64): (r: Range)
    ensures r.low <= r.high && (r == Range(a, b) || r == Range(b, a))
  {
    if a <= b then Range(a, b) else Range(b, a)
  }

  function Around(value: I64, uncertainty: I64): (r: Option<Range>) {
    match CheckedAbs(value)
    case None => None
    case Some(magnitude) =>
      match MulBasisPoints(magnitude, uncertainty)
      case None => None
      case Some(delta) =>
        match (Checked(value - delta), Checked(value + delta))
        case (Some(a), Some(b)) => Some(NewRange(a, b))
        case _ => None
  }

  /** Whatever the uncertainty, a range around a value is ordered, holds the value and has it in the
      middle; below the limit its half-width is the share of the value that was asked for. */
  lemma AroundIsSymmetric(value: I64, uncertainty: I64)
    ensures match Around(value, uncertainty)
            case None => true
            case Some(r) =>
              && r.low <= value <= r.high && r.high - value == value - r.low
              && (Magnitude(value) * Magnitude(uncertainty) <= I64_MAX - 5_000 ==>
                    r.high - value == Magnitude(DivRoundHalfAway(Magnitude(value) * uncertainty, 10_000)))
  {
    hide MachineRound, DivRoundHalfAway, MulBasisPoints;
    if CheckedAbs(value).Some? {
      BasisPointsExactly(CheckedAbs(value).value, uncertainty);
      SignedProduct(Magnitude(value), uncertainty);
    }
  }

  /** A range around a value is refused exactly when the value has no magnitude in 64 bits, the share
      overflows, or a bound would leave 64 bits. */
  lemma AroundRefused(value: I64, uncertainty: I64)
    ensures Around(value, uncertainty).None?
       <==> (|| value == I64_MIN
             || MulBasisPoints(Magnitude(value), uncertainty).None?
             || (var delta := MulBasisPoints(Magnitude(value), uncertainty).value;
                 !(I64_MIN <= value - delta && value - delta <= I64_MAX && I64_MIN <= value + delta && value + delta <= I64_MAX)))
  {
    hide MulBasisPoints;
  }

  lemma SignedProduct(m: nat, n: int)
    ensures m * n == if n >= 0 then m * Magnitude(n) else -(m * Magnitude(n))
  {
  }

  function AddRanges(a: Range, b: Range): (r: Option<Range>) {
    match (Checked(a.low + b.low), Checked(a.high + b.high))
    case (Some(low), Some(high)) => Some(Range(low, high))
    case _ => None
  }

  predicate Holds(r: Range, ore: int) {
    r.low <= ore <= r.high
  }

  /** The sum of two ranges holds exactly the sums of what they hold, and stays ordered. */
  lemma AddedRangesHold(a: Range, b: Range, n: int)
    requires a.low <= a.high && b.low <= b.high && AddRanges(a, b).Some?
    ensures Holds(AddRanges(a, b).value, n) <==> exists m :: Holds(a, m) && Holds(b, n - m)
    ensures AddRanges(a, b).value.low <= AddRanges(a, b).value.high
  {
    if Holds(AddRanges(a, b).value, n) {
      var m := if n - b.low <= a.high then n - b.low else a.high;
      assert Holds(a, m) && Holds(b, n - m);
    }
  }

  lemma AddRefused(a: Range, b: Range)
    ensures AddRanges(a, b).None?
       <==> !(I64_MIN <= a.low + b.low <= I64_MAX) || !(I64_MIN <= a.high + b.high <= I64_MAX)
  {
  }

  function SaturatingAdd(a: I64, b: I64): (c: I64) {
    if a + b > I64_MAX then I64_MAX else if a + b < I64_MIN then I64_MIN else a + b
  }

  function Midpoint(r: Range): (m: I64) {
    MachineRound(SaturatingAdd(r.low, r.high), 2)
  }

  /** The midpoint lies in the range exactly when the sum of the bounds stays off the ends of 64
      bits, and is then the nearest to their mean. */
  lemma MidpointExactly(r: Range)
    requires r.low <= r.high
    ensures Holds(r, Midpoint(r)) <==> I64_MIN < r.low + r.high < I64_MAX
    ensures Holds(r, Midpoint(r)) ==> Midpoint(r) == DivRoundHalfAway(r.low + r.high, 2)
  {
    hide MachineRound;
    MachineRoundExactly(SaturatingAdd(r.low, r.high), 2);
    MachineRoundAtEnds();
  }

  lemma MachineRoundAtEnds()
    ensures MachineRound(I64_MAX, 2) == -0x4000_0000_0000_0000
    ensures MachineRound(I64_MIN, 2) == 0x3fff_ffff_ffff_ffff
  {
  }
}
