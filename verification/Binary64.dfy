/**
 Non-negative binary64 numbers as bit patterns, and correct rounding of exact results to them.

 Values are counted in units of 2^-1074, the smallest positive binary64 number, so that the value
 of every pattern is a natural number. An exact result is a fraction num / den of such units.
 */
module Binary64 {
  import opened Words

  const MAX: nat := 0x7FEF_FFFF_FFFF_FFFF

  /** The finite non-negative patterns. */
  type Pattern = b: nat | b <= MAX

  /** The value the exponent and fraction fields stand for. */
  function Value(b: nat): (v: nat) {
    var e, f := b / 0x10_0000_0000_0000, b % 0x10_0000_0000_0000;
    if e == 0 then f else (0x10_0000_0000_0000 + f) * Pow2(e - 1)
  }

  datatype Fraction = Fraction(num: nat, den: nat)

  /** A result whose magnitude does not overflow. */
  predicate InRange(x: Fraction) {
    x.den > 0 && x.num <= Value(MAX) * x.den
  }

  // ---------- The number line ----------

  /** Below the second normal binade, a pattern is its own value. */
  lemma SmallValue(b: nat)
    requires b < 0x20_0000_0000_0000
    ensures Value(b) == b
  {
    assert Pow2(0) == 1;
  }

  /** One binade up, the same fraction stands for twice the value. */
  lemma ValueDoubles(b: nat)
    requires b >= 0x10_0000_0000_0000
    ensures Value(b + 0x10_0000_0000_0000) == 2 * Value(b)
  {
    var e, f := b / 0x10_0000_0000_0000, b % 0x10_0000_0000_0000;
    var c := b + 0x10_0000_0000_0000;
    assert c / 0x10_0000_0000_0000 == e + 1 && c % 0x10_0000_0000_0000 == f;
    assert Pow2(e) == 2 * Pow2(e - 1);
    var p := Pow2(e - 1);
    assert (0x10_0000_0000_0000 + f) * (2 * p) == 2 * ((0x10_0000_0000_0000 + f) * p);
  }

  /** The value grows strictly, across the subnormal boundary and every binade boundary. */
  lemma {:induction false} ValueIncreases(b: nat)
    ensures Value(b) < Value(b + 1)
  {
    if b + 1 < 0x20_0000_0000_0000 {
      SmallValue(b);
      SmallValue(b + 1);
    } else if b + 1 == 0x20_0000_0000_0000 {
      SmallValue(b);
      SmallValue(0x10_0000_0000_0000);
      ValueDoubles(0x10_0000_0000_0000);
    } else {
      var c := b - 0x10_0000_0000_0000;
      ValueIncreases(c);
      ValueDoubles(c);
      ValueDoubles(c + 1);
    }
  }

  lemma {:induction false} ValueMonotone(a: nat, b: nat)
    ensures a < b <==> Value(a) < Value(b)
    decreases if a < b then b - a else a - b
  {
    if a < b {
      ValueMonotone(a, b - 1);
      ValueIncreases(b - 1);
    } else if b < a {
      ValueMonotone(a - 1, b);
      ValueIncreases(a - 1);
    }
  }

  // ---------- Truncation ----------

  /** The greatest pattern whose value is at most n. */
  function Truncate(n: nat): (b: nat)
    ensures n >= 0x10_0000_0000_0000 ==> b >= 0x10_0000_0000_0000
    ensures Value(b) <= n < Value(b + 1)
  {
    if n < 0x20_0000_0000_0000 then
      SmallValue(n);
      ValueIncreases(n);
      n
    else
      var h := Truncate(n / 2);
      ValueDoubles(h);
      ValueDoubles(h + 1);
      0x10_0000_0000_0000 + h
  }

  // ---------- Rounding ----------

  datatype Mode = RNE | RTZ | RDN | RUP | RMM

  function Lower(x: Fraction): (b: nat)
    requires x.den > 0
  {
    Truncate(x.num / x.den)
  }

  /** The value of pattern b is x exactly. */
  predicate Is(b: nat, x: Fraction) {
    Value(b) * x.den == x.num
  }

  predicate Below(b: nat, x: Fraction) {
    Value(b) * x.den <= x.num
  }

  predicate Above(b: nat, x: Fraction) {
    x.num <= Value(b) * x.den
  }

  predicate Exact(x: Fraction)
    requires x.den > 0
  {
    Is(Lower(x), x)
  }

  function Distance(b: nat, x: Fraction): (d: nat) {
    var v := Value(b) * x.den;
    if v <= x.num then x.num - v else v - x.num
  }

  /** How much nearer the pattern below x is than the next one. */
  function Lead(x: Fraction): (d: int)
    requires x.den > 0
  {
    Distance(Lower(x) + 1, x) - Distance(Lower(x), x)
  }

  /** The correctly rounded result. */
  function Round(m: Mode, x: Fraction): (b: nat)
    requires x.den > 0
  {
    var lo := Lower(x);
    if Is(lo, x) then lo
    else
      match m
      case RDN => lo
      case RTZ => lo
      case RUP => lo + 1
      case RNE => if Lead(x) > 0 || (Lead(x) == 0 && lo % 2 == 0) then lo else lo + 1
      case RMM => if Lead(x) > 0 then lo else lo + 1
  }

  lemma Scale(a: nat, b: nat, d: nat)
    requires d > 0
    ensures a < b <==> a * d < b * d
    ensures a <= b <==> a * d <= b * d
  {
  }

  lemma FloorBetween(num: nat, den: nat, lo: nat, hi: nat)
    requires den > 0
    ensures lo <= num / den < hi <==> lo * den <= num < hi * den
  {
    var q := num / den;
    assert q * den <= num < (q + 1) * den;
    Scale(lo, q, den);
    Scale(lo, q + 1, den);
    Scale(q + 1, hi, den);
    Scale(q, hi, den);
  }

  lemma Scaled(a: nat, b: nat, d: nat)
    requires d > 0
    ensures a < b <==> Value(a) * d < Value(b) * d
    ensures a <= b <==> Value(a) * d <= Value(b) * d
  {
    ValueMonotone(a, b);
    ValueMonotone(b, a);
    Scale(Value(a), Value(b), d);
  }

  /** What the truncated pattern is: at most x, with x below the next. No other pattern is. */
  lemma LowerIs(x: Fraction, b: nat)
    requires x.den > 0
    ensures b == Lower(x) <==> Below(b, x) && !Below(b + 1, x)
  {
    var lo := Lower(x);
    FloorBetween(x.num, x.den, Value(lo), Value(lo + 1));
    Scaled(b, lo + 1, x.den);
    Scaled(lo, b + 1, x.den);
  }

  /** Exactly the patterns up to the truncated one are at most x. */
  lemma BelowIff(x: Fraction, b: nat)
    requires x.den > 0
    ensures Below(b, x) <==> b <= Lower(x)
  {
    var lo := Lower(x);
    LowerIs(x, lo);
    Scaled(b, lo, x.den);
    Scaled(lo + 1, b, x.den);
  }

  lemma LowerInRange(x: Fraction)
    requires InRange(x)
    ensures Lower(x) <= MAX && (Lower(x) == MAX ==> Exact(x))
  {
    LowerIs(x, Lower(x));
    Scaled(Lower(x), MAX, x.den);
    Scaled(MAX, Lower(x), x.den);
  }

  /** A result is in range exactly if rounding it up stays finite. */
  lemma RoundsUpFinite(x: Fraction)
    requires x.den > 0
    ensures InRange(x) <==> Round(RUP, x) <= MAX
  {
    if InRange(x) {
      LowerInRange(x);
    } else {
      LowerIs(x, Lower(x));
      BelowIff(x, MAX);
      Scaled(Lower(x), MAX, x.den);
    }
  }

  /** The finite patterns are those whose exponent field is not all ones. */
  lemma FiniteIff(b: nat)
    ensures b <= MAX <==> b / 0x10_0000_0000_0000 < 0x7FF
  {
  }

  /** Directed rounding brackets the exact result. Rounding down gives the greatest pattern not
      above it and rounding up the least not below it; they coincide exactly when some pattern is
      the result, and are otherwise neighbours. */
  lemma DirectedBrackets(x: Fraction, b: nat)
    requires InRange(x)
    ensures var lo, hi := Round(RDN, x), Round(RUP, x);
            && lo <= hi <= MAX
            && (Below(b, x) <==> b <= lo)
            && (Above(b, x) <==> hi <= b)
            && (Exact(x) ==> hi == lo && Is(lo, x))
            && (!Exact(x) ==> hi == lo + 1 && !Is(b, x))
            && Round(RTZ, x) == lo
  {
    var lo := Lower(x);
    LowerInRange(x);
    LowerIs(x, lo);
    BelowIff(x, b);
    Scaled(b, lo, x.den);
    Scaled(lo, b, x.den);
    Scaled(lo + 1, b, x.den);
    Scaled(b, lo + 1, x.den);
  }

  /** Away from x on either side, patterns only get farther. */
  lemma Farther(x: Fraction, b: nat)
    requires x.den > 0
    ensures b < Lower(x) ==> Distance(Lower(x), x) < Distance(b, x)
    ensures b > Lower(x) + 1 ==> Distance(Lower(x) + 1, x) < Distance(b, x)
  {
    var lo := Lower(x);
    LowerIs(x, lo);
    if b < lo {
      Scaled(b, lo, x.den);
    } else if b > lo + 1 {
      Scaled(lo + 1, b, x.den);
    }
  }

  /** r beats b: nearer to x, or as near and the one the tie rule prefers. */
  predicate Beats(m: Mode, r: nat, b: nat, x: Fraction) {
    || Distance(r, x) < Distance(b, x)
    || (Distance(r, x) == Distance(b, x) && if m == RNE then r % 2 == 0 else b < r)
  }

  lemma BeatsNeighbour(m: Mode, x: Fraction)
    requires x.den > 0 && (m == RNE || m == RMM) && !Exact(x)
    ensures var r := Round(m, x);
            || (r == Lower(x) && Beats(m, r, r + 1, x))
            || (r == Lower(x) + 1 && Beats(m, r, r - 1, x))
  {
  }

  lemma BeatsOthers(m: Mode, x: Fraction, b: nat)
    requires x.den > 0 && (m == RNE || m == RMM) && !Exact(x) && b != Round(m, x)
    ensures Beats(m, Round(m, x), b, x)
  {
    BeatsNeighbour(m, x);
    Farther(x, b);
  }

  /** Rounding to nearest beats every other pattern; ties go to the even pattern under RNE and to
      the larger under RMM. */
  lemma Nearest(m: Mode, x: Fraction, b: nat)
    requires InRange(x) && (m == RNE || m == RMM)
    ensures var r := Round(m, x);
            && r <= MAX && (r == Round(RDN, x) || r == Round(RUP, x))
            && (b != r ==> Beats(m, r, b, x))
  {
    LowerInRange(x);
    if b != Round(m, x) {
      if Exact(x) {
        ApartFrom(x, b);
      } else {
        BeatsOthers(m, x, b);
      }
    }
  }

  lemma ApartFrom(x: Fraction, b: nat)
    requires x.den > 0 && Exact(x) && b != Lower(x)
    ensures Distance(b, x) > 0
  {
    Scaled(b, Lower(x), x.den);
    Scaled(Lower(x), b, x.den);
  }

  /** Every mode leaves a result that some pattern is alone. */
  lemma RoundOfExact(m: Mode, x: Fraction, b: nat)
    requires x.den > 0 && Is(b, x)
    ensures Round(m, x) == b && Exact(x)
  {
    Scaled(b, b + 1, x.den);
    LowerIs(x, b);
  }

  /** x is at most y. */
  predicate AtMost(x: Fraction, y: Fraction) {
    x.num * y.den <= y.num * x.den
  }

  lemma BelowTransfers(x: Fraction, y: Fraction, b: nat)
    requires x.den > 0 && y.den > 0 && AtMost(x, y) && Below(b, x)
    ensures Below(b, y)
    ensures Is(b, y) ==> Is(b, x)
  {
    var v := Value(b);
    Scale(v * x.den, x.num, y.den);
    assert v * x.den * y.den == v * y.den * x.den;
    Scale(v * y.den, y.num, x.den);
    Scale(y.num, v * y.den, x.den);
    Scale(x.num, v * x.den, y.den);
  }

  /** Rounding is monotone in every mode. */
  lemma RoundMonotone(m: Mode, x: Fraction, y: Fraction)
    requires x.den > 0 && y.den > 0 && AtMost(x, y)
    ensures Round(m, x) <= Round(m, y)
  {
    var lo, up := Lower(x), Lower(y);
    LowerIs(x, lo);
    BelowTransfers(x, y, lo);
    BelowIff(y, lo);
    if lo == up {
      LeadMonotone(x, y);
    }
  }

  lemma CrossMultiply(n1: nat, d1: nat, n2: nat, d2: nat, s: nat)
    requires d1 > 0 && d2 > 0 && n1 * d2 <= n2 * d1
    ensures n2 < s * d2 ==> n1 < s * d1
    ensures n2 <= s * d2 ==> n1 <= s * d1
  {
    Scale(n2, s * d2, d1);
    Scale(n1, s * d1, d2);
    assert s * d2 * d1 == s * d1 * d2;
  }

  /** The two neighbours' distances, as numbers. */
  lemma LeadIs(x: Fraction)
    requires x.den > 0
    ensures Lead(x) == Value(Lower(x)) * x.den + Value(Lower(x) + 1) * x.den - 2 * x.num
  {
    LowerIs(x, Lower(x));
  }

  lemma MidpointCross(n1: nat, d1: nat, n2: nat, d2: nat, u: nat, w: nat)
    requires d1 > 0 && d2 > 0 && n1 * d2 <= n2 * d1
    ensures u * d2 + w * d2 - 2 * n2 > 0 ==> u * d1 + w * d1 - 2 * n1 > 0
    ensures u * d2 + w * d2 - 2 * n2 >= 0 ==> u * d1 + w * d1 - 2 * n1 >= 0
  {
    CrossMultiply(2 * n1, d1, 2 * n2, d2, u + w);
    assert (u + w) * d1 == u * d1 + w * d1 && (u + w) * d2 == u * d2 + w * d2;
  }

  lemma LeadMonotone(x: Fraction, y: Fraction)
    requires x.den > 0 && y.den > 0 && AtMost(x, y) && Lower(x) == Lower(y)
    ensures Lead(y) > 0 ==> Lead(x) > 0
    ensures Lead(y) >= 0 ==> Lead(x) >= 0
  {
    LeadIs(x);
    LeadIs(y);
    MidpointCross(x.num, x.den, y.num, y.den, Value(Lower(x)), Value(Lower(x) + 1));
  }
}
