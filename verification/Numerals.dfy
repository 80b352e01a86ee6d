/** Positional numerals: what uart_put_uint prints, and reading it back. */
module Numerals {
  import opened Words

  const DECIMAL: string := "0123456789"
  const HEXADECIMAL: string := "0123456789abcdef"

  /** One distinct character per digit. */
  predicate Alphabet(digits: string) {
    |digits| >= 2 && forall i, j :: 0 <= i < j < |digits| ==> digits[i] != digits[j]
  }

  function Power(base: nat, n: nat): (p: nat) {
    if n == 0 then 1 else base * Power(base, n - 1)
  }

  /** The numeral of v, most significant digit first; empty for 0. */
  function Positional(v: nat, digits: string): (s: string)
    requires |digits| >= 2
    decreases v
  {
    if v == 0 then "" else Positional(v / |digits|, digits) + [digits[v % |digits|]]
  }

  function Numeral(v: nat, digits: string): (s: string)
    requires |digits| >= 2
  {
    if v == 0 then [digits[0]] else Positional(v, digits)
  }

  // ---------- Reading it back ----------

  function DigitValue(c: char, digits: string): (d: nat)
    requires c in digits
    ensures d < |digits| && digits[d] == c
  {
    if c == digits[|digits| - 1] then |digits| - 1 else DigitValue(c, digits[..|digits| - 1])
  }

  predicate OverDigits(s: string, digits: string) {
    forall i :: 0 <= i < |s| ==> s[i] in digits
  }

  function Parse(s: string, digits: string): (v: nat)
    requires OverDigits(s, digits)
  {
    if s == "" then 0
    else Parse(s[..|s| - 1], digits) * |digits| + DigitValue(s[|s| - 1], digits)
  }

  /** The form a number is printed in: digits only, at least one, and no superfluous leading zero. */
  predicate Canonical(s: string, digits: string)
    requires |digits| >= 2
  {
    s != "" && OverDigits(s, digits) && (s[0] == digits[0] ==> |s| == 1)
  }

  lemma MulMonotone(a: nat, b: nat, c: nat)
    requires a <= b
    ensures a * c <= b * c
  {
  }

  lemma DivMod(v: nat, b: nat)
    requires b > 0
    ensures v == v / b * b + v % b && 0 <= v % b < b
    ensures v > 0 && b >= 2 ==> v / b < v
  {
  }

  lemma DivModUnique(a: nat, d: nat, b: nat)
    requires d < b
    ensures (a * b + d) / b == a && (a * b + d) % b == d
  {
    var n := a * b + d;
    var q := n / b;
    DivMod(n, b);
    assert (a + 1) * b == a * b + b && (q + 1) * b == q * b + b;
    if q > a {
      MulMonotone(a + 1, q, b);
    } else if q < a {
      MulMonotone(q + 1, a, b);
    }
  }

  lemma DivBelow(v: nat, b: nat, p: nat)
    requires b > 0
    ensures v / b < p <==> v < b * p
  {
    DivMod(v, b);
    var q := v / b;
    if q < p {
      MulMonotone(q + 1, p, b);
      assert (q + 1) * b == q * b + b;
    } else {
      MulMonotone(p, q, b);
    }
  }

  lemma ParseLast(s: string, d: nat, digits: string)
    requires Alphabet(digits) && OverDigits(s, digits) && d < |digits|
    ensures OverDigits(s + [digits[d]], digits)
    ensures Parse(s + [digits[d]], digits) == Parse(s, digits) * |digits| + d
  {
    var t := s + [digits[d]];
    assert t[..|t| - 1] == s;
    assert DigitValue(digits[d], digits) == d;
  }

  lemma {:induction false} PositionalParses(v: nat, digits: string)
    requires Alphabet(digits)
    ensures var s := Positional(v, digits);
            && OverDigits(s, digits) && Parse(s, digits) == v
            && (s != "" ==> s[0] != digits[0])
            && (s == "" <==> v == 0)
    decreases v
  {
    if v > 0 {
      var q, d := v / |digits|, v % |digits|;
      DivMod(v, |digits|);
      PositionalParses(q, digits);
      ParseLast(Positional(q, digits), d, digits);
      if q == 0 {
        assert d == v && d != 0;
      }
    }
  }

  /** Printing round trip: the numeral is canonical and parses back to the value. */
  lemma NumeralParses(v: nat, digits: string)
    requires Alphabet(digits)
    ensures var s := Numeral(v, digits);
            Canonical(s, digits) && Parse(s, digits) == v
  {
    PositionalParses(v, digits);
    if v == 0 {
      assert Parse([digits[0]], digits) == Parse("", digits) * |digits| + DigitValue(digits[0], digits);
    }
  }

  lemma {:induction false} ParsePositive(s: string, digits: string)
    requires |digits| >= 2 && s != "" && OverDigits(s, digits) && s[0] != digits[0]
    ensures Parse(s, digits) > 0
    decreases |s|
  {
    if |s| > 1 {
      ParsePositive(s[..|s| - 1], digits);
      MulMonotone(1, Parse(s[..|s| - 1], digits), |digits|);
    } else {
      assert s[..|s| - 1] == "";
    }
  }

  lemma PositionalLast(q: nat, d: nat, digits: string)
    requires |digits| >= 2 && d < |digits| && q * |digits| + d > 0
    ensures Positional(q * |digits| + d, digits) == Positional(q, digits) + [digits[d]]
  {
    DivModUnique(q, d, |digits|);
  }

  lemma {:induction false} PositionalOfParse(s: string, digits: string)
    requires |digits| >= 2 && OverDigits(s, digits) && (s != "" ==> s[0] != digits[0])
    ensures Positional(Parse(s, digits), digits) == s
    decreases |s|
  {
    if s != "" {
      var front := s[..|s| - 1];
      ParsePositive(s, digits);
      PositionalOfParse(front, digits);
      PositionalLast(Parse(front, digits), DigitValue(s[|s| - 1], digits), digits);
      assert s == front + [s[|s| - 1]];
    }
  }

  /** And the other way: the printed form of a value is the only canonical string that reads as it. */
  lemma NumeralUnique(s: string, digits: string)
    requires Alphabet(digits) && Canonical(s, digits)
    ensures Numeral(Parse(s, digits), digits) == s
  {
    if s[0] == digits[0] {
      assert s[..0] == "" && DigitValue(s[0], digits) == 0;
      assert Parse(s, digits) == Parse(s[..0], digits) * |digits| + DigitValue(s[0], digits);
    } else {
      ParsePositive(s, digits);
      PositionalOfParse(s, digits);
    }
  }

  /** How long a numeral is: n digits are enough for exactly the values below base^n. */
  lemma {:induction false} PositionalLength(v: nat, digits: string, n: nat)
    requires |digits| >= 2
    ensures |Positional(v, digits)| <= n <==> v < Power(|digits|, n)
    decreases n
  {
    var b := |digits|;
    if v > 0 && n > 0 {
      PositionalLength(v / b, digits, n - 1);
      DivBelow(v, b, Power(b, n - 1));
    } else if v == 0 {
      PowerPositive(b, n);
    }
  }

  lemma {:induction false} PowerPositive(base: nat, n: nat)
    requires base > 0
    ensures Power(base, n) > 0
  {
    if n > 0 {
      PowerPositive(base, n - 1);
    }
  }

  lemma Powers()
    ensures Power(10, 20) == 100_000_000_000_000_000_000 && Power(16, 16) == WORD_SIZE
    ensures Power(10, 24) == 1_000_000_000_000_000_000_000_000 && Power(16, 24) == WORD_SIZE * 0x1_0000_0000
  {
    assert Power(10, 5) == 100_000 && Power(16, 5) == 0x10_0000;
    assert Power(10, 10) == 10_000_000_000 && Power(16, 10) == 0x100_0000_0000;
    assert Power(10, 15) == 1_000_000_000_000_000 && Power(16, 15) == 0x1000_0000_0000_0000;
    assert Power(10, 20) == 100_000_000_000_000_000_000 && Power(16, 20) == WORD_SIZE * 0x1_0000;
  }

  /** No 64-bit value needs more than 20 decimal or 16 hexadecimal digits. */
  lemma WordLengths(v: Word)
    ensures |Numeral(v, DECIMAL)| <= 20 && |Numeral(v, HEXADECIMAL)| <= 16
  {
    Powers();
    PositionalLength(v, DECIMAL, 20);
    PositionalLength(v, HEXADECIMAL, 16);
  }

  lemma Alphabets()
    ensures Alphabet(DECIMAL) && Alphabet(HEXADECIMAL)
  {
  }

  // ---------- ASCII ----------

  /** The value of an ASCII digit, by its code. */
  function AsciiDigit(c: char): (d: nat) {
    if '0' <= c <= '9' then c as int - 0x30
    else if 'a' <= c <= 'f' then c as int - 0x61 + 10
    else 16
  }

  /** Reads a string of ASCII digits in the given base. */
  function ReadAscii(s: string, base: nat): (v: nat) {
    if s == "" then 0 else ReadAscii(s[..|s| - 1], base) * base + AsciiDigit(s[|s| - 1])
  }

  /** The alphabets hold the ASCII digits, each at its value. */
  lemma AlphabetsAreAscii()
    ensures |DECIMAL| == 10 && forall d :: 0 <= d < 10 ==> AsciiDigit(DECIMAL[d]) == d
    ensures |HEXADECIMAL| == 16 && forall d :: 0 <= d < 16 ==> AsciiDigit(HEXADECIMAL[d]) == d
  {
  }

  lemma {:induction false} ParseIsReading(s: string, digits: string)
    requires |digits| >= 2 && OverDigits(s, digits)
    requires forall d :: 0 <= d < |digits| ==> AsciiDigit(digits[d]) == d
    ensures ReadAscii(s, |digits|) == Parse(s, digits)
    decreases |s|
  {
    if s != "" {
      ParseIsReading(s[..|s| - 1], digits);
      assert AsciiDigit(digits[DigitValue(s[|s| - 1], digits)]) == DigitValue(s[|s| - 1], digits);
    }
  }

  /** What is printed reads as the value, in ASCII, in base ten and in base sixteen. */
  lemma PrintedReadsBack(v: nat)
    ensures ReadAscii(Numeral(v, DECIMAL), 10) == v && ReadAscii(Numeral(v, HEXADECIMAL), 16) == v
  {
    Alphabets();
    AlphabetsAreAscii();
    NumeralParses(v, DECIMAL);
    NumeralParses(v, HEXADECIMAL);
    ParseIsReading(Numeral(v, DECIMAL), DECIMAL);
    ParseIsReading(Numeral(v, HEXADECIMAL), HEXADECIMAL);
  }
}
