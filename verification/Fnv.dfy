/** The 64-bit FNV-1a checksum, in its byte form and its word form, for any basis. */
module Fnv {
  import opened Words
  import opened Numerals

  type Byte = b: nat | b < 256

  /** One byte into the state. */
  function Step(h: Word, b: Byte): (r: Word) {
    Xor(h, b) * 0x100_0000_01b3 % 0x1_0000_0000_0000_0000
  }

  /** The state before b went in. */
  function Unstep(h: Word, b: Byte): (r: nat) {
    Xor(h * 0xce96_5057_aff6_957b % 0x1_0000_0000_0000_0000, b)
  }

  function Hash(h: Word, s: seq<Byte>): (r: Word) {
    if s == [] then h else Step(Hash(h, s[..|s| - 1]), s[|s| - 1])
  }

  // ---------- A step is a permutation of the states ----------

  lemma {:induction false} XorCancel(a: nat, b: nat)
    ensures Xor(Xor(a, b), b) == a
  {
    if a != 0 || b != 0 {
      XorCancel(a / 2, b / 2);
      var x := Xor(a / 2, b / 2);
      assert Xor(a, b) / 2 == x;
    }
  }

  lemma {:induction false} XorCommutes(a: nat, b: nat)
    ensures Xor(a, b) == Xor(b, a)
  {
    if a != 0 || b != 0 {
      XorCommutes(a / 2, b / 2);
    }
  }

  /** Multiplying by p and by its inverse i modulo m, in either order. */
  lemma MulInverse(x: nat, p: nat, i: nat, m: nat, t: nat)
    requires 0 < m && x < m && p * i == 1 + t * m
    ensures x * p % m * i % m == x
  {
    var q, r := x * p / m, x * p % m;
    assert x * p == q * m + r;
    assert r * i == x * p * i - q * m * i;
    assert x * p * i == x * (p * i);
    assert x * (1 + t * m) == x + x * t * m;
    assert q * m * i == q * i * m;
    var k := x * t - q * i;
    assert r * i == x + k * m by {
      assert x * t * m - q * i * m == (x * t - q * i) * m;
    }
    ModOf(r * i, x, k, m);
  }

  lemma ModOf(n: nat, x: nat, k: int, m: nat)
    requires x < m && n == x + k * m
    ensures n % m == x
  {
    assert k >= 0;
    DivModUnique(k, x, m);
  }

  /** Every byte's step can be undone, and every state is reached: a permutation. */
  lemma StepIsPermutation(h: Word, b: Byte)
    ensures Unstep(Step(h, b), b) == h
    ensures Unstep(h, b) < WORD_SIZE && Step(Unstep(h, b), b) == h
  {
    var m := 0x1_0000_0000_0000_0000;
    var t := 0x100_0000_01b3 * 0xce96_5057_aff6_957b / m;
    XorWord(h, b);
    XorCancel(h, b);
    MulInverse(Xor(h, b), 0x100_0000_01b3, 0xce96_5057_aff6_957b, m, t);
    var u := h * 0xce96_5057_aff6_957b % m;
    XorWord(u, b);
    XorCancel(u, b);
    MulInverse(h, 0xce96_5057_aff6_957b, 0x100_0000_01b3, m, t);
  }

  lemma StepInjective(h: Word, g: Word, b: Byte, c: Byte)
    ensures h != g ==> Step(h, b) != Step(g, b)
    ensures b != c ==> Step(h, b) != Step(h, c)
  {
    StepIsPermutation(h, b);
    StepIsPermutation(g, b);
    StepIsPermutation(h, c);
    if b != c && Step(h, b) == Step(h, c) {
      var u := Step(h, b) * 0xce96_5057_aff6_957b % 0x1_0000_0000_0000_0000;
      XorCancel(b, u);
      XorCancel(c, u);
      XorCommutes(u, b);
      XorCommutes(u, c);
    }
  }

  /** States that differ stay apart over any common bytes. */
  lemma {:induction false} BasesStayApart(h: Word, g: Word, s: seq<Byte>)
    requires h != g
    ensures Hash(h, s) != Hash(g, s)
    decreases |s|
  {
    if s != [] {
      var front := s[..|s| - 1];
      BasesStayApart(h, g, front);
      StepInjective(Hash(h, front), Hash(g, front), s[|s| - 1], s[|s| - 1]);
    }
  }

  lemma {:induction false} HashConcat(h: Word, s: seq<Byte>, t: seq<Byte>)
    ensures Hash(h, s + t) == Hash(Hash(h, s), t)
    decreases |t|
  {
    if t == [] {
      assert s + t == s;
    } else {
      HashConcat(h, s, t[..|t| - 1]);
      assert (s + t)[..|s + t| - 1] == s + t[..|t| - 1];
    }
  }

  /** Streams of one length that differ in exactly one byte never collide, whatever the basis. */
  lemma OneByteDiffers(h: Word, s: seq<Byte>, i: nat, b: Byte)
    requires i < |s| && b != s[i]
    ensures Hash(h, s[i := b]) != Hash(h, s)
  {
    var mid := Hash(h, s[..i]);
    var t := s[i := b];
    assert s == s[..i] + [s[i]] + s[i + 1..];
    assert t == s[..i] + [b] + s[i + 1..];
    HashConcat(h, s[..i] + [s[i]], s[i + 1..]);
    HashConcat(h, s[..i] + [b], s[i + 1..]);
    HashConcat(h, s[..i], [s[i]]);
    HashConcat(h, s[..i], [b]);
    HashOne(mid, s[i]);
    HashOne(mid, b);
    StepInjective(mid, mid, b, s[i]);
    BasesStayApart(Step(mid, b), Step(mid, s[i]), s[i + 1..]);
  }

  lemma HashOne(h: Word, b: Byte)
    ensures Hash(h, [b]) == Step(h, b)
  {
    assert [b][..0] == [];
  }

  // ---------- Words, low byte first ----------

  /** v >> (8 * j) */
  function Shifted(v: Word, j: nat): (s: nat) {
    if j == 0 then v else Shifted(v, j - 1) / 256
  }

  function Bytes(v: Word, j: nat): (s: seq<Byte>)
    ensures |s| == j
  {
    if j == 0 then [] else Bytes(v, j - 1) + [Shifted(v, j - 1) % 256]
  }

  /** The number little-endian bytes stand for. */
  function Number(s: seq<Byte>): (v: nat) {
    if s == [] then 0 else s[0] + 256 * Number(s[1..])
  }

  /** The bytes of the words in memory order. */
  function Image(ws: seq<Word>): (s: seq<Byte>) {
    if ws == [] then [] else Image(ws[..|ws| - 1]) + Bytes(ws[|ws| - 1], 8)
  }

  lemma {:induction false} NumberLast(s: seq<Byte>, b: Byte)
    ensures Number(s + [b]) == Number(s) + Power(256, |s|) * b
    decreases |s|
  {
    if s == [] {
      assert [b][1..] == [];
    } else {
      NumberLast(s[1..], b);
      assert (s + [b])[1..] == s[1..] + [b];
      var p := Power(256, |s| - 1);
      assert 256 * (p * b) == 256 * p * b;
    }
  }

  lemma SplitLow(p: nat, q: nat, d: nat)
    ensures p * (256 * q + d) == p * d + 256 * p * q
  {
  }

  lemma {:induction false} BytesPrefix(v: Word, j: nat)
    ensures v == Number(Bytes(v, j)) + Power(256, j) * Shifted(v, j)
    decreases j
  {
    if j > 0 {
      BytesPrefix(v, j - 1);
      var s := Shifted(v, j - 1);
      NumberLast(Bytes(v, j - 1), s % 256);
      SplitLow(Power(256, j - 1), s / 256, s % 256);
    }
  }

  /** The eight bytes fed for a word are its little-endian bytes. */
  lemma BytesAreLittleEndian(v: Word)
    ensures Number(Bytes(v, 8)) == v
  {
    BytesPrefix(v, 8);
    assert Shifted(v, 8) == 0 by {
      assert Shifted(v, 1) < 0x100_0000_0000_0000;
      assert Shifted(v, 2) < 0x1_0000_0000_0000;
      assert Shifted(v, 3) < 0x100_0000_0000;
      assert Shifted(v, 4) < 0x1_0000_0000;
      assert Shifted(v, 5) < 0x100_0000;
      assert Shifted(v, 6) < 0x1_0000;
      assert Shifted(v, 7) < 0x100;
    }
  }

  // ---------- The loops ----------

  method HashBytes(basis: Word, data: array<Byte>, len: nat) returns (h: Word)
    requires len <= data.Length
    ensures h == Hash(basis, data[..len])
  {
    h := basis;
    for i := 0 to len
      invariant h == Hash(basis, data[..i])
    {
      assert data[..i + 1][..i] == data[..i];
      h := Xor(h, data[i]) * 0x100_0000_01b3 % 0x1_0000_0000_0000_0000;
    }
  }

  method Feed(basis: Word, v: Word) returns (h: Word)
    ensures h == Hash(basis, Bytes(v, 8))
  {
    h := basis;
    for j := 0 to 8
      invariant h == Hash(basis, Bytes(v, j))
    {
      assert Bytes(v, j + 1)[..j] == Bytes(v, j);
      h := Xor(h, Shifted(v, j) % 256) * 0x100_0000_01b3 % 0x1_0000_0000_0000_0000;
    }
  }

  /** Feeding words one by one is hashing their memory image. */
  method FeedWords(basis: Word, ws: seq<Word>) returns (h: Word)
    ensures h == Hash(basis, Image(ws))
  {
    h := basis;
    assert ws[..0] == [];
    for i := 0 to |ws|
      invariant h == Hash(basis, Image(ws[..i]))
    {
      assert ws[..i + 1][..i] == ws[..i];
      HashConcat(basis, Image(ws[..i]), Bytes(ws[i], 8));
      h := Feed(h, ws[i]);
    }
    assert ws[..|ws|] == ws;
  }
}
