/** String helpers shared by the components: JavaScript's `trim`, `split(c)[0]`,
    `substring(0, n)`, `padStart` and decimal `String(n)`. Strings are sequences of
    Unicode scalar values. */
module Text {

  /** JavaScript's `WhiteSpace` and `LineTerminator` code points: the set that
      `String.prototype.trim` strips and that the regular-expression class `\s` matches. */
  predicate IsWhite(c: char) {
    || c == '\t' || c == '\n' || c == '\U{B}' || c == '\U{C}' || c == '\r' || c == ' '
    || c == '\U{A0}' || c == '\U{1680}' || ('\U{2000}' <= c <= '\U{200A}')
    || c == '\U{2028}' || c == '\U{2029}' || c == '\U{202F}' || c == '\U{205F}'
    || c == '\U{3000}' || c == '\U{FEFF}'
  }

  /** How many white-space characters `s` starts with. */
  function LeadingWhite(s: string): (n: nat)
    ensures n <= |s|
    ensures forall i :: 0 <= i < n ==> IsWhite(s[i])
    ensures n < |s| ==> !IsWhite(s[n])
  {
    if |s| > 0 && IsWhite(s[0]) then 1 + LeadingWhite(s[1..]) else 0
  }

  /** How many white-space characters `s` ends with. */
  function TrailingWhite(s: string): (n: nat)
    ensures n <= |s|
    ensures forall i :: |s| - n <= i < |s| ==> IsWhite(s[i])
    ensures n < |s| ==> !IsWhite(s[|s| - n - 1])
  {
    if |s| > 0 && IsWhite(s[|s| - 1]) then 1 + TrailingWhite(s[..|s| - 1]) else 0
  }

  /** `String.prototype.trim`: the piece of `s` that starts after its leading white
      space, ends before its trailing white space and itself neither starts nor ends
      with white space. */
  function Trim(s: string): (r: string)
    ensures LeadingWhite(s) + |r| <= |s|
    ensures r == s[LeadingWhite(s)..LeadingWhite(s) + |r|]
    ensures forall i :: LeadingWhite(s) + |r| <= i < |s| ==> IsWhite(s[i])
    ensures |r| > 0 ==> !IsWhite(r[0]) && !IsWhite(r[|r| - 1])
    ensures (forall i :: 0 <= i < |s| ==> IsWhite(s[i])) <==> r == []
  {
    var t := s[LeadingWhite(s)..];
    t[..|t| - TrailingWhite(t)]
  }

  /** A string with no white space at either end is its own trim. */
  lemma TrimOfTrimmed(s: string)
    requires |s| > 0 ==> !IsWhite(s[0]) && !IsWhite(s[|s| - 1])
    ensures Trim(s) == s
  {
  }

  /** Trimming is idempotent. */
  lemma TrimIdempotent(s: string)
    ensures Trim(Trim(s)) == Trim(s)
  {
    TrimOfTrimmed(Trim(s));
  }

  /** `s.split(c)[0]`: the part of `s` before the first `c`, or all of `s`. */
  function CutAt(s: string, c: char): (r: string)
    ensures |r| <= |s| && r == s[..|r|]
    ensures c !in r
    ensures |r| < |s| ==> s[|r|] == c
  {
    if |s| == 0 || s[0] == c then [] else [s[0]] + CutAt(s[1..], c)
  }

  /** `s.substring(0, n)` for `n >= 0`: the first `n` characters, or all of `s`. */
  function Take(s: string, n: nat): (r: string)
    ensures |r| == if |s| < n then |s| else n
    ensures r == s[..|r|]
  {
    if |s| <= n then s else s[..n]
  }

  predicate IsDigit(c: char) {
    '0' <= c <= '9'
  }

  function DigitChar(n: nat): (c: char)
    requires n < 10
    ensures IsDigit(c)
  {
    ['0', '1', '2', '3', '4', '5', '6', '7', '8', '9'][n]
  }

  function DigitValue(c: char): (n: nat)
    requires IsDigit(c)
    ensures n < 10 && DigitChar(n) == c
  {
    (c as int - '0' as int) as nat
  }

  /** `String(n)` for a non-negative integer: its decimal digits, no leading zero. */
  function NatToString(n: nat): (r: string)
    ensures |r| >= 1 && (forall i :: 0 <= i < |r| ==> IsDigit(r[i]))
    ensures r[0] == '0' ==> n == 0
  {
    if n < 10 then [DigitChar(n)] else NatToString(n / 10) + [DigitChar(n % 10)]
  }

  /** The value of a string of decimal digits (most significant first). */
  function ParseDigits(s: string): nat
    requires forall i :: 0 <= i < |s| ==> IsDigit(s[i])
  {
    if |s| == 0 then 0 else ParseDigits(s[..|s| - 1]) * 10 + DigitValue(s[|s| - 1])
  }

  /** Reading back the digits `String(n)` writes gives `n`. */
  lemma {:induction false} ParseNatToString(n: nat)
    ensures ParseDigits(NatToString(n)) == n
  {
    if n >= 10 {
      var s := NatToString(n);
      assert s[..|s| - 1] == NatToString(n / 10);
      ParseNatToString(n / 10);
    }
  }

  lemma NatToStringInjective(a: nat, b: nat)
    requires NatToString(a) == NatToString(b)
    ensures a == b
  {
    ParseNatToString(a);
    ParseNatToString(b);
  }

  /** Four-digit numbers print as exactly four characters. */
  lemma NatToStringFourDigits(n: nat)
    requires 1000 <= n <= 9999
    ensures |NatToString(n)| == 4
  {
    var a := n / 10;
    DivTenRange(n, 100, 1000);
    var b := a / 10;
    DivTenRange(a, 10, 100);
    DivTenRange(b, 1, 10);
    assert |NatToString(b / 10)| == 1;
    assert |NatToString(b)| == 2;
    assert |NatToString(a)| == 3;
  }

  lemma DivTenRange(x: int, lo: int, hi: int)
    requires lo * 10 <= x < hi * 10
    ensures lo <= x / 10 < hi
  {
  }

  /** `String(i)` for any integer: a minus sign before the magnitude when negative. */
  function IntToString(i: int): (r: string)
    ensures |r| >= 1
    ensures i < 0 <==> r[0] == '-'
  {
    if i < 0 then "-" + NatToString(-i) else NatToString(i)
  }

  lemma IntToStringInjective(a: int, b: int)
    requires IntToString(a) == IntToString(b)
    ensures a == b
  {
    if a < 0 {
      assert IntToString(a)[1..] == NatToString(-a);
      assert IntToString(b)[1..] == NatToString(-b);
      NatToStringInjective(-a, -b);
    } else {
      NatToStringInjective(a, b);
    }
  }

  /** `s.padStart(width, fill)`: `fill` repeated in front until `s` is `width` long. */
  function PadStart(s: string, width: nat, fill: char): (r: string)
    ensures |r| == if |s| < width then width else |s|
    ensures r[|r| - |s|..] == s
    ensures forall i :: 0 <= i < |r| - |s| ==> r[i] == fill
  {
    if |s| < width then seq(width - |s|, _ => fill) + s else s
  }

  lemma DigitValueInjective(a: char, b: char)
    requires IsDigit(a) && IsDigit(b) && DigitValue(a) == DigitValue(b)
    ensures a == b
  {
  }

  /** A digit string without a leading zero is exactly what `String` prints for its value. */
  lemma {:induction false} NatToStringOfDigits(s: string)
    requires |s| >= 1 && (forall i :: 0 <= i < |s| ==> IsDigit(s[i]))
    requires s[0] != '0'
    ensures NatToString(ParseDigits(s)) == s
  {
    var n := ParseDigits(s);
    if |s| == 1 {
      assert s[..0] == [];
      assert n == ParseDigits(s[..0]) * 10 + DigitValue(s[0]);
      DigitValueInjective(s[0], DigitChar(n));
    } else {
      var p := s[..|s| - 1];
      NatToStringOfDigits(p);
      LeadingDigitPositive(p);
      assert n / 10 == ParseDigits(p) && n % 10 == DigitValue(s[|s| - 1]);
      DigitValueInjective(s[|s| - 1], DigitChar(n % 10));
      assert s == p + [s[|s| - 1]];
    }
  }

  lemma {:induction false} LeadingDigitPositive(s: string)
    requires |s| >= 1 && (forall i :: 0 <= i < |s| ==> IsDigit(s[i]))
    requires s[0] != '0'
    ensures ParseDigits(s) >= 1
  {
    if |s| > 1 {
      LeadingDigitPositive(s[..|s| - 1]);
    }
  }
}
