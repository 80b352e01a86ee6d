/** Bitwise operations on numbers, each characterised bit by bit. */
module Masks {
  import opened Words
  import opened Numerals

  function And(a: nat, b: nat): (x: nat)
    ensures x <= a
  {
    if a == 0 || b == 0 then 0 else 2 * And(a / 2, b / 2) + if a % 2 == 1 && b % 2 == 1 then 1 else 0
  }

  lemma DivTwice(v: nat, p: nat)
    requires p > 0
    ensures v / (2 * p) == v / 2 / p
  {
    var h, d := v / 2, v % 2;
    DivMod(h, p);
    var q, r := h / p, h % p;
    assert v == 2 * (q * p + r) + d;
    assert 2 * (q * p) == q * (2 * p);
    DivModUnique(q, 2 * r + d, 2 * p);
  }

  /** Bit i of v is bit i - 1 of its half. */
  lemma BitShift(v: nat, i: nat)
    requires i > 0
    ensures Bit(v, i) <==> Bit(v / 2, i - 1)
  {
    DivTwice(v, Pow2(i - 1));
  }

  /** A bit shows through a mask exactly if both have it. */
  lemma {:induction false} AndBit(a: nat, b: nat, i: nat)
    ensures Bit(And(a, b), i) <==> Bit(a, i) && Bit(b, i)
    decreases i
  {
    if i == 0 {
      assert Pow2(0) == 1;
    } else {
      BitShift(a, i);
      BitShift(b, i);
      BitShift(And(a, b), i);
      AndBit(a / 2, b / 2, i - 1);
      assert And(a, b) / 2 == And(a / 2, b / 2);
    }
  }

  lemma TwiceProduct(m: nat, x: nat)
    ensures m * (2 * x) == 2 * (m * x)
  {
  }

  lemma HalfSum(s: nat, r: nat)
    ensures (2 * s + r) / 2 == s + r / 2 && (2 * s + r) % 2 == r % 2
  {
  }

  lemma SplitTwice(q: nat, d: nat, p: nat)
    requires d == 2 * p
    ensures q * d == 2 * (q * p)
  {
    TwiceProduct(q, p);
  }

  /** The remainder r of v modulo 2^n has the bits of v below n. */
  lemma {:induction false} RemainderBits(v: nat, n: nat, k: nat, q: nat, r: nat)
    requires k < n && v == q * Pow2(n) + r && r < Pow2(n)
    ensures Bit(r, k) <==> Bit(v, k)
    decreases k
  {
    var p := Pow2(n - 1);
    SplitTwice(q, Pow2(n), p);
    HalfSum(q * p, r);
    if k == 0 {
      LowBit(v);
      LowBit(r);
    } else {
      BitShift(v, k);
      BitShift(r, k);
      RemainderBits(v / 2, n - 1, k - 1, q, r / 2);
    }
  }

  /** Exclusive or, bit by bit. */
  lemma {:induction false} XorBit(a: nat, b: nat, i: nat)
    ensures Bit(Xor(a, b), i) <==> Bit(a, i) != Bit(b, i)
    decreases i
  {
    assert Xor(a, b) / 2 == Xor(a / 2, b / 2);
    if i == 0 {
      assert Pow2(0) == 1;
    } else {
      BitShift(a, i);
      BitShift(b, i);
      BitShift(Xor(a, b), i);
      XorBit(a / 2, b / 2, i - 1);
    }
  }

  /** 2^c has bit c and no other. */
  lemma {:induction false} SingleBit(c: nat, i: nat)
    ensures Bit(Pow2(c), i) <==> i == c
    decreases c
  {
    if i == 0 {
      assert Pow2(0) == 1;
    } else if c == 0 {
      BitShift(1, i);
      NoBits(i - 1);
    } else {
      BitShift(Pow2(c), i);
      SingleBit(c - 1, i - 1);
    }
  }

  lemma NoBits(i: nat)
    ensures !Bit(0, i)
  {
    DivMod(0, Pow2(i));
  }

  lemma LowBit(v: nat)
    ensures Bit(v, 0) <==> v % 2 == 1
  {
    assert Pow2(0) == 1;
  }

  /** Subtracting 2^c from a number that has bit c clears that bit and no other. */
  lemma {:induction false} ClearBit(v: nat, c: nat, i: nat)
    requires Bit(v, c)
    ensures v >= Pow2(c)
    ensures Bit(v - Pow2(c), i) <==> Bit(v, i) && i != c
    decreases c
  {
    LowBit(v);
    if c == 0 {
      LowBit(v - 1);
      if i > 0 {
        BitShift(v, i);
        BitShift(v - 1, i);
      }
    } else {
      BitShift(v, c);
      var p := Pow2(c - 1);
      ClearBit(v / 2, c - 1, if i > 0 then i - 1 else 0);
      assert (v - 2 * p) / 2 == v / 2 - p && (v - 2 * p) % 2 == v % 2;
      LowBit(v - 2 * p);
      if i > 0 {
        BitShift(v, i);
        BitShift(v - 2 * p, i);
      }
    }
  }

  /** A number is known by its bits. */
  lemma {:induction false} BitsDetermine(a: nat, b: nat, n: nat)
    requires a < Pow2(n) && b < Pow2(n)
    requires forall i: nat :: i < n ==> (Bit(a, i) <==> Bit(b, i))
    ensures a == b
    decreases n
  {
    if n > 0 {
      LowBit(a);
      LowBit(b);
      assert Bit(a, 0) <==> Bit(b, 0);
      forall i: nat | i < n - 1
        ensures Bit(a / 2, i) <==> Bit(b / 2, i)
      {
        BitShift(a, i + 1);
        BitShift(b, i + 1);
      }
      BitsDetermine(a / 2, b / 2, n - 1);
    }
  }
}
