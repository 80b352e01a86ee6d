/** What correct rounding makes of the operands of the rounding trials: each result is strictly
    between two neighbours, at a known place between them. The lemmas hold at every binade. */
module RoundingConstants {
  import opened Words
  import opened Binary64

  /** A result strictly between the neighbours lo and lo + 1; its lead tells which is nearer. */
  predicate Between(x: Fraction, lo: nat) {
    x.den > 0 && Lower(x) == lo && !Exact(x)
  }

  /** The pattern with exponent field e and fraction f. */
  function Encode(e: nat, f: nat): (b: nat) {
    0x10_0000_0000_0000 * e + f
  }

  /** Its value as c times a power of two. */
  lemma EncodeValue(e: nat, f: nat, d: nat, p: nat, k: nat, c: nat)
    requires f < 0x10_0000_0000_0000 && e == d + k + 1 && p == Pow2(d) && c == (0x10_0000_0000_0000 + f) * p
    ensures Value(Encode(e, f)) == c * Pow2(k)
  {
    Pow2Add(d, k);
    var b := Encode(e, f);
    assert b / 0x10_0000_0000_0000 == e && b % 0x10_0000_0000_0000 == f;
    Regroup(0x10_0000_0000_0000 + f, p, Pow2(k));
  }

  lemma Regroup(s: nat, p: nat, q: nat)
    ensures s * (p * q) == s * p * q
  {
  }

  lemma TwoTo53()
    ensures Pow2(53) == 0x20_0000_0000_0000
  {
    assert Pow2(10) == 0x400;
    assert Pow2(20) == 0x10_0000;
    assert Pow2(30) == 0x4000_0000;
    assert Pow2(40) == 0x100_0000_0000;
    assert Pow2(50) == 0x4_0000_0000_0000;
  }

  lemma Settle(x: Fraction, lo: nat, u: nat, w: nat)
    requires x.den > 0 && u == Value(lo) * x.den && w == Value(lo + 1) * x.den && u < x.num < w
    ensures Between(x, lo) && Lead(x) == u + w - 2 * x.num
  {
    LowerIs(x, lo);
    LeadIs(x);
  }

  /** Half a unit in the last place more than a number: a tie. */
  lemma HalfUlp(e: nat, f: nat, x: Fraction)
    requires e >= 54 && f + 1 < 0x10_0000_0000_0000
    requires x == Fraction(Value(Encode(e, f)) + Value(Encode(e - 53, 0)), 1)
    ensures Between(x, Encode(e, f)) && Lead(x) == 0
  {
    var k := e - 54;
    TwoTo53();
    EncodeValue(e, f, 53, 0x20_0000_0000_0000, k, (0x10_0000_0000_0000 + f) * 0x20_0000_0000_0000);
    EncodeValue(e, f + 1, 53, 0x20_0000_0000_0000, k, (0x10_0000_0000_0001 + f) * 0x20_0000_0000_0000);
    EncodeValue(e - 53, 0, 0, 1, k, 0x10_0000_0000_0000);
    HalfWay(f, Pow2(k));
    Settle(x, Encode(e, f), Value(Encode(e, f)), Value(Encode(e, f + 1)));
  }

  lemma HalfWay(f: nat, q: nat)
    requires q > 0
    ensures (0x10_0000_0000_0000 + f) * 0x20_0000_0000_0000 * q + 2 * (0x10_0000_0000_0000 * q)
         == (0x10_0000_0000_0001 + f) * 0x20_0000_0000_0000 * q
  {
  }

  /** Three quarters of a unit in the last place more than a power of two: nearer to the next. */
  lemma ThreeQuarterUlp(e: nat, x: Fraction)
    requires e >= 54
    requires x == Fraction(Value(Encode(e, 0)) + Value(Encode(e - 53, 0x8_0000_0000_0000)), 1)
    ensures Between(x, Encode(e, 0)) && Lead(x) < 0
  {
    var k := e - 54;
    TwoTo53();
    EncodeValue(e, 0, 53, 0x20_0000_0000_0000, k, 0x10_0000_0000_0000 * 0x20_0000_0000_0000);
    EncodeValue(e, 1, 53, 0x20_0000_0000_0000, k, 0x10_0000_0000_0001 * 0x20_0000_0000_0000);
    EncodeValue(e - 53, 0x8_0000_0000_0000, 0, 1, k, 0x18_0000_0000_0000);
    var a, w := Value(Encode(e, 0)), Value(Encode(e, 1));
    ThreeQuarterWay(Pow2(k), a, x.num - a, w);
    Settle(x, Encode(e, 0), a, w);
  }

  lemma ThreeQuarterWay(q: nat, a: nat, h: nat, w: nat)
    requires q > 0 && a == 0x10_0000_0000_0000 * 0x20_0000_0000_0000 * q
    requires h == 0x18_0000_0000_0000 * q && w == 0x10_0000_0000_0001 * 0x20_0000_0000_0000 * q
    ensures a < a + h < w && a + w < 2 * (a + h)
  {
  }

  /** An eighth of a unit in the last place less than a number: nearer to that number. */
  lemma EighthUlpLess(e: nat, f: nat, x: Fraction)
    requires e >= 56 && 0 < f < 0x10_0000_0000_0000
    requires Value(Encode(e - 55, 0)) <= Value(Encode(e, f))
    requires x == Fraction(Value(Encode(e, f)) - Value(Encode(e - 55, 0)), 1)
    ensures Between(x, Encode(e, f - 1)) && Lead(x) < 0
  {
    var k := e - 56;
    TwoTo53();
    assert Pow2(55) == 4 * Pow2(53);
    EncodeValue(e, f - 1, 55, 0x80_0000_0000_0000, k, (0xF_FFFF_FFFF_FFFF + f) * 0x80_0000_0000_0000);
    EncodeValue(e, f, 55, 0x80_0000_0000_0000, k, (0x10_0000_0000_0000 + f) * 0x80_0000_0000_0000);
    EncodeValue(e - 55, 0, 0, 1, k, 0x10_0000_0000_0000);
    EighthWay(f, Pow2(k));
    Settle(x, Encode(e, f - 1), Value(Encode(e, f - 1)), Value(Encode(e, f)));
  }

  lemma EighthWay(f: nat, q: nat)
    requires q > 0
    ensures (0xF_FFFF_FFFF_FFFF + f) * 0x80_0000_0000_0000 * q + 8 * (0x10_0000_0000_0000 * q)
         == (0x10_0000_0000_0000 + f) * 0x80_0000_0000_0000 * q
  {
  }

  /** A power of two divided by three, of the same binade as the power: nearer to the lower. */
  lemma Third(e: nat, x: Fraction)
    requires e >= 3
    requires x == Fraction(Value(Encode(e, 0)) * Value(Encode(e, 0)), Value(Encode(e + 1, 0x8_0000_0000_0000)))
    ensures Between(x, Encode(e - 2, 0x5_5555_5555_5555)) && Lead(x) > 0
  {
    var k := e - 3;
    var q := Pow2(k);
    assert Pow2(2) == 4 && Pow2(3) == 8;
    EncodeValue(e, 0, 2, 4, k, 0x40_0000_0000_0000);
    EncodeValue(e + 1, 0x8_0000_0000_0000, 3, 8, k, 0xC0_0000_0000_0000);
    EncodeValue(e - 2, 0x5_5555_5555_5555, 0, 1, k, 0x15_5555_5555_5555);
    EncodeValue(e - 2, 0x5_5555_5555_5556, 0, 1, k, 0x15_5555_5555_5556);
    ThirdSettled(x, Encode(e - 2, 0x5_5555_5555_5555), q, Value(Encode(e, 0)));
  }

  lemma ThirdSettled(x: Fraction, lo: nat, q: nat, a: nat)
    requires q > 0 && a == 0x40_0000_0000_0000 * q && x.num == a * a && x.den == 0xC0_0000_0000_0000 * q
    requires Value(lo) == 0x15_5555_5555_5555 * q && Value(lo + 1) == 0x15_5555_5555_5556 * q
    ensures Between(x, lo) && Lead(x) > 0
  {
    var d, v, w := x.den, Value(lo), Value(lo + 1);
    ThirdWay(q, a, d, v, w);
    Settle(x, lo, v * d, w * d);
  }

  lemma ThirdWay(q: nat, a: nat, d: nat, v: nat, w: nat)
    requires q > 0 && a == 0x40_0000_0000_0000 * q && d == 0xC0_0000_0000_0000 * q
    requires v == 0x15_5555_5555_5555 * q && w == 0x15_5555_5555_5556 * q
    ensures v * d < a * a < w * d && v * d + w * d > 2 * (a * a)
  {
    var p := q * q;
    assert a * a == 0x40_0000_0000_0000 * 0x40_0000_0000_0000 * p;
    assert v * d == 0x15_5555_5555_5555 * 0xC0_0000_0000_0000 * p;
    assert w * d == 0x15_5555_5555_5556 * 0xC0_0000_0000_0000 * p;
  }

  /** A power of two and its double add up exactly. */
  lemma OneAndTwo(e: nat, x: Fraction)
    requires e >= 1
    requires x == Fraction(Value(Encode(e, 0)) + Value(Encode(e + 1, 0)), 1)
    ensures Is(Encode(e + 1, 0x8_0000_0000_0000), x)
  {
    var k := e - 1;
    assert Pow2(1) == 2;
    EncodeValue(e, 0, 0, 1, k, 0x10_0000_0000_0000);
    EncodeValue(e + 1, 0, 1, 2, k, 0x20_0000_0000_0000);
    EncodeValue(e + 1, 0x8_0000_0000_0000, 1, 2, k, 0x30_0000_0000_0000);
  }
}
