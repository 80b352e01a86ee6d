/** 64-bit machine words as bounded naturals, and their bits. */
module Words {
  const WORD_SIZE: nat := 0x1_0000_0000_0000_0000

  type Word = n: nat | n < WORD_SIZE

  function Wrap(n: int): (w: Word) {
    n % WORD_SIZE
  }

  function Min(a: int, b: int): (m: int) {
    if a < b then a else b
  }

  /** The machine's addition. */
  function Add(a: Word, b: Word): (s: Word) {
    if a + b < 0x1_0000_0000_0000_0000 then a + b else a + b - 0x1_0000_0000_0000_0000
  }

  lemma WrapNext(n: nat)
    ensures Add(Wrap(n), 1) == Wrap(n + 1) == Wrap(Wrap(n) + 1)
  {
  }

  function Pow2(k: nat): (p: nat)
    ensures p > 0
  {
    if k == 0 then 1 else 2 * Pow2(k - 1)
  }

  /** Bitwise exclusive or. */
  function Xor(a: nat, b: nat): (x: nat) {
    if a == 0 && b == 0 then 0 else 2 * Xor(a / 2, b / 2) + if a % 2 == b % 2 then 0 else 1
  }

  lemma {:induction false} XorSelf(a: nat)
    ensures Xor(a, a) == 0
  {
    if a > 0 {
      XorSelf(a / 2);
    }
  }

  /** Bit i of v reads as one. */
  predicate Bit(v: nat, i: nat) {
    (v / Pow2(i)) % 2 == 1
  }

  lemma {:induction false} Pow2Add(a: nat, b: nat)
    ensures Pow2(a + b) == Pow2(a) * Pow2(b)
  {
    if a != 0 {
      Pow2Add(a - 1, b);
      assert Pow2(a + b) == 2 * Pow2((a - 1) + b);
    }
  }

  lemma {:induction false} XorBelow(a: nat, b: nat, k: nat)
    requires a < Pow2(k) && b < Pow2(k)
    ensures Xor(a, b) < Pow2(k)
    decreases k
  {
    if k > 0 && (a != 0 || b != 0) {
      XorBelow(a / 2, b / 2, k - 1);
    }
  }

  lemma WordBits()
    ensures Pow2(64) == WORD_SIZE
  {
    assert Pow2(10) == 0x400 && Pow2(20) == 0x10_0000 && Pow2(30) == 0x4000_0000;
    assert Pow2(40) == 0x100_0000_0000;
    assert Pow2(50) == 0x4_0000_0000_0000;
    assert Pow2(60) == 0x1000_0000_0000_0000;
  }

  lemma XorWord(a: Word, b: Word)
    ensures Xor(a, b) < WORD_SIZE
  {
    WordBits();
    XorBelow(a, b, 64);
  }
}
