/** uart.c: CRLF expansion and number printing. What reaches the transmitter is an appended string. */
module Uart {
  import opened Words
  import opened Numerals

  // ---------- CRLF expansion ----------

  /** What the terminal receives for s. */
  function Expand(s: string): (t: string) {
    if s == "" then ""
    else if s[|s| - 1] == '\n' then Expand(s[..|s| - 1]) + ['\r', '\n']
    else Expand(s[..|s| - 1]) + [s[|s| - 1]]
  }

  /** Undoes it: drops the character before each line feed. */
  function Collapse(t: string): (s: string) {
    if t == "" then ""
    else if t[|t| - 1] == '\n' && |t| >= 2 then Collapse(t[..|t| - 2]) + ['\n']
    else Collapse(t[..|t| - 1]) + [t[|t| - 1]]
  }

  /** Every line feed directly follows a carriage return. */
  predicate LineFeedsPaired(t: string) {
    forall i :: 0 <= i < |t| && t[i] == '\n' ==> i > 0 && t[i - 1] == '\r'
  }

  lemma ExpandLast(s: string, c: char)
    ensures Expand(s + [c]) == if c == '\n' then Expand(s) + ['\r', '\n'] else Expand(s) + [c]
  {
    assert (s + [c])[..|s|] == s;
  }

  lemma CollapseLast(t: string, c: char)
    ensures c != '\n' ==> Collapse(t + [c]) == Collapse(t) + [c]
    ensures Collapse(t + ['\r', '\n']) == Collapse(t) + ['\n']
  {
    assert (t + [c])[..|t|] == t;
    assert (t + ['\r', '\n'])[..|t|] == t;
  }

  /** Nothing is lost, for any string, with or without carriage returns of its own. */
  lemma {:induction false} CollapseExpand(s: string)
    ensures Collapse(Expand(s)) == s && LineFeedsPaired(Expand(s))
    decreases |s|
  {
    if s != "" {
      var front, c := s[..|s| - 1], s[|s| - 1];
      assert s == front + [c];
      CollapseExpand(front);
      ExpandLast(front, c);
      CollapseLast(Expand(front), c);
    }
  }

  lemma {:induction false} ExpandOfCollapse(t: string)
    requires LineFeedsPaired(t)
    ensures Expand(Collapse(t)) == t
    decreases |t|
  {
    if t != "" {
      var n := |t| - 1;
      if t[n] == '\n' {
        ExpandOfCollapse(t[..n - 1]);
        ExpandLast(Collapse(t[..n - 1]), '\n');
        assert t == t[..n - 1] + ['\r', '\n'];
      } else {
        ExpandOfCollapse(t[..n]);
        ExpandLast(Collapse(t[..n]), t[n]);
        assert t == t[..n] + [t[n]];
      }
    }
  }

  /** The streams that come out are exactly those whose line feeds are paired. */
  lemma ExpandCollapse(t: string)
    ensures LineFeedsPaired(t) <==> Expand(Collapse(t)) == t
  {
    if LineFeedsPaired(t) {
      ExpandOfCollapse(t);
    } else {
      CollapseExpand(Collapse(t));
    }
  }

  lemma {:induction false} ExpandAppend(s: string, t: string)
    ensures Expand(s + t) == Expand(s) + Expand(t)
    decreases |t|
  {
    if t == "" {
      assert s + t == s;
    } else {
      var n := |t| - 1;
      ExpandAppend(s, t[..n]);
      assert (s + t)[..|s + t| - 1] == s + t[..n];
    }
  }

  /** One more character of s. */
  lemma ExpandNext(s: string, n: nat)
    requires n < |s|
    ensures Expand(s[..n]) + Expand([s[n]]) == Expand(s[..n + 1])
  {
    ExpandAppend(s[..n], [s[n]]);
    assert s[..n + 1] == s[..n] + [s[n]];
  }

  lemma ExpandOne(c: char)
    ensures Expand([c]) == if c == '\n' then ['\r', '\n'] else [c]
  {
    assert [c][..0] == "";
  }

  lemma {:induction false} ExpandPlain(s: string)
    requires '\n' !in s
    ensures Expand(s) == s
    decreases |s|
  {
    if s != "" {
      ExpandPlain(s[..|s| - 1]);
      assert s == s[..|s| - 1] + [s[|s| - 1]];
    }
  }

  // ---------- C strings ----------

  /** The characters of p before its first NUL. */
  function CString(p: string): (s: string)
    requires '\0' in p
  {
    if p[0] == '\0' then "" else [p[0]] + CString(p[1..])
  }

  lemma {:induction false} CStringPrefix(p: string)
    requires '\0' in p
    ensures |CString(p)| < |p| && CString(p) == p[..|CString(p)|] && p[|CString(p)|] == '\0' && '\0' !in CString(p)
    decreases |p|
  {
    if p[0] != '\0' {
      CStringPrefix(p[1..]);
    }
  }

  // ---------- The driver ----------

  /** The first loop of uart_put_uint: the digits, least significant first. */
  method FillDigits(v: nat, digits: string) returns (buf: array<char>, i: nat)
    requires |digits| >= 2 && |Positional(v, digits)| <= 24
    ensures buf.Length == 24 && fresh(buf) && i == |Positional(v, digits)|
    ensures forall k :: 0 <= k < i ==> buf[k] == Positional(v, digits)[i - 1 - k]
  {
    ghost var s := Positional(v, digits);
    buf := new char[24];
    i := 0;
    var rest: nat := v;
    assert s[..|s|] == s;
    while rest > 0
      invariant i <= |s| && s[..|s| - i] == Positional(rest, digits)
      invariant forall k :: 0 <= k < i ==> buf[k] == s[|s| - 1 - k]
      decreases rest
    {
      var q, d := rest / |digits|, rest % |digits|;
      PositionalCut(s, |s| - i, rest, q, d, digits);
      buf[i] := digits[d];
      i := i + 1;
      rest := q;
    }
    assert |s[..|s| - i]| == |s| - i;
  }

  lemma PositionalCut(s: string, n: nat, rest: nat, q: nat, d: nat, digits: string)
    requires |digits| >= 2 && q == rest / |digits| && d == rest % |digits|
    requires n <= |s| && rest > 0 && s[..n] == Positional(rest, digits)
    ensures q < rest && d < |digits|
    ensures n > 0 && s[n - 1] == digits[d] && s[..n - 1] == Positional(q, digits)
  {
    DivMod(rest, |digits|);
    assert s[..n] == Positional(q, digits) + [digits[d]];
    assert |s[..n]| == n;
    assert s[n - 1] == s[..n][n - 1];
    assert s[..n - 1] == s[..n][..n - 1];
  }

  class Transmitter {
    var sent: string

    constructor ()
      ensures sent == ""
    {
      sent := "";
    }

    method Putc(c: char)
      modifies this
      ensures sent == old(sent) + Expand([c])
      decreases c == '\n'
    {
      ExpandOne(c);
      if c == '\n' {
        ExpandOne('\r');
        Putc('\r');
      }
      sent := sent + [c];
    }

    method Puts(p: string)
      requires '\0' in p
      modifies this
      ensures sent == old(sent) + Expand(CString(p))
    {
      CStringPrefix(p);
      ghost var s := CString(p);
      var i := 0;
      assert s[..0] == "";
      while p[i] != '\0'
        invariant i <= |s| < |p| && s == p[..|s|] && p[|s|] == '\0' && '\0' !in s
        invariant sent == old(sent) + Expand(s[..i])
        decreases |s| - i
      {
        ExpandNext(s, i);
        Putc(p[i]);
        i := i + 1;
      }
      assert s[..|s|] == s;
    }

    /** Prints the numeral, through a 24-character buffer that is never overrun: the bound on v
        is what 24 digits of that base can hold. */
    method PutUint(v: nat, digits: string)
      requires |digits| >= 2 && v < Power(|digits|, 24)
      modifies this
      ensures sent == old(sent) + Expand(Numeral(v, digits))
    {
      if v == 0 {
        Putc(digits[0]);
        return;
      }
      PositionalLength(v, digits, 24);
      var buf, i := FillDigits(v, digits);
      ghost var s := Positional(v, digits);
      assert s[..0] == "";
      while i > 0
        invariant 0 <= i <= |s| <= buf.Length
        invariant forall k :: 0 <= k < i ==> buf[k] == s[|s| - 1 - k]
        invariant sent == old(sent) + Expand(s[..|s| - i])
      {
        i := i - 1;
        ExpandNext(s, |s| - i - 1);
        Putc(buf[i]);
      }
      assert s[..|s|] == s;
    }

    method PutHex(v: Word)
      modifies this
      ensures sent == old(sent) + "0x" + Numeral(v, HEXADECIMAL)
    {
      PlainWord(v);
      ExpandPlain("0x");
      assert CString("0x\0") == "0x";
      Puts("0x\0");
      PutUint(v, HEXADECIMAL);
    }

    method PutDec(v: Word)
      modifies this
      ensures sent == old(sent) + Numeral(v, DECIMAL)
    {
      PlainWord(v);
      PutUint(v, DECIMAL);
    }
  }

  lemma PlainNumeral(v: nat, digits: string)
    requires Alphabet(digits) && '\n' !in digits
    ensures Expand(Numeral(v, digits)) == Numeral(v, digits)
  {
    NumeralParses(v, digits);
    ExpandPlain(Numeral(v, digits));
  }

  lemma PlainWord(v: Word)
    ensures v < Power(10, 24) && v < Power(16, 24)
    ensures Expand(Numeral(v, DECIMAL)) == Numeral(v, DECIMAL)
    ensures Expand(Numeral(v, HEXADECIMAL)) == Numeral(v, HEXADECIMAL)
  {
    Alphabets();
    PlainNumeral(v, DECIMAL);
    PlainNumeral(v, HEXADECIMAL);
    Powers();
  }
}
