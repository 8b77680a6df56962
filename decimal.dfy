/** Decimal text of C integers: the `%d` rendering used by `snprintf`, the
    `atoi` parse used to read an integer literal back, and C's truncating
    division. Integers are unbounded here; the source's 32-bit `int` is not
    modelled. */
module Decimal {

  predicate IsDigit(c: char) {
    '0' <= c <= '9'
  }

  function DigitValue(c: char): (d: nat)
    requires IsDigit(c)
    ensures d < 10
  {
    c as int - '0' as int
  }

  function DigitChar(d: nat): (c: char)
    requires d < 10
    ensures IsDigit(c) && DigitValue(c) == d
  {
    (d + '0' as int) as char
  }

  predicate AllDigits(s: string) {
    forall i :: 0 <= i < |s| ==> IsDigit(s[i])
  }

  /** Decimal digits of a natural number, most significant first, no leading zeros. */
  function NatToString(n: nat): (s: string)
    ensures |s| > 0 && AllDigits(s)
    ensures n < 10 <==> |s| == 1
    ensures s[0] == '0' <==> n == 0
  {
    if n < 10 then [DigitChar(n)] else NatToString(n / 10) + [DigitChar(n % 10)]
  }

  /** The shape of `%d` text: an optional minus sign and then digits, with no
      leading zero and no minus zero. */
  predicate PrintedDecimal(s: string) {
    |s| > 0 &&
    if s[0] == '-' then |s| > 1 && AllDigits(s[1..]) && s[1] != '0'
    else AllDigits(s) && (|s| > 1 ==> s[0] != '0')
  }

  /** `snprintf(buf, size, "%d", n)`: a minus sign for negative values, then the digits. */
  function IntToString(n: int): (s: string)
    ensures |s| > 0
    ensures n < 0 <==> s[0] == '-'
    ensures n >= 0 ==> AllDigits(s)
    ensures n < 0 ==> |s| > 1 && AllDigits(s[1..])
    ensures n >= 0 && |s| > 1 ==> s[0] != '0'
    ensures n < 0 ==> s[1] != '0'
    ensures PrintedDecimal(s)
  {
    if n < 0 then "-" + NatToString(-n) else NatToString(n)
  }

  /** The digit loop of `atoi`: accumulate leading digits, stop at the first non-digit. */
  function ScanDigits(s: string, acc: int): int {
    if |s| > 0 && IsDigit(s[0]) then ScanDigits(s[1..], acc * 10 + DigitValue(s[0])) else acc
  }

  /** The white-space characters `atoi` skips: space and `\t \n \v \f \r`. */
  predicate IsSpace(c: char) {
    c == ' ' || '\t' <= c <= '\r'
  }

  /** `atoi`: skip leading white space, read an optional sign, then the longest
      digit prefix; text with no digits there reads as 0. */
  function Atoi(s: string): int {
    if |s| > 0 && IsSpace(s[0]) then Atoi(s[1..])
    else if |s| > 0 && s[0] == '-' then -ScanDigits(s[1..], 0)
    else if |s| > 0 && s[0] == '+' then ScanDigits(s[1..], 0)
    else ScanDigits(s, 0)
  }

  lemma {:induction false} ScanDigitsAppend(a: string, b: string, acc: int)
    requires AllDigits(a)
    ensures ScanDigits(a + b, acc) == ScanDigits(b, ScanDigits(a, acc))
  {
    if |a| > 0 {
      assert (a + b)[0] == a[0];
      assert (a + b)[1..] == a[1..] + b;
      ScanDigitsAppend(a[1..], b, acc * 10 + DigitValue(a[0]));
    } else {
      assert a + b == b;
    }
  }

  lemma {:induction false} ScanNatToString(n: nat)
    ensures ScanDigits(NatToString(n), 0) == n
  {
    if n >= 10 {
      var d := [DigitChar(n % 10)];
      ScanDigitsAppend(NatToString(n / 10), d, 0);
      ScanNatToString(n / 10);
      assert d[1..] == [];
    }
  }

  /** Reading back the `%d` text of any integer with `atoi` gives the integer. */
  lemma AtoiIntToString(n: int)
    ensures Atoi(IntToString(n)) == n
  {
    if n < 0 {
      ScanNatToString(-n);
      var s := IntToString(n);
      assert s[0] == '-' && s[1..] == NatToString(-n);
    } else {
      ScanNatToString(n);
    }
  }

  function Abs(x: int): nat {
    if x < 0 then -x else x
  }

  /** C's `/` on `int`: the quotient truncated toward zero, so the remainder
      `a - q * b` is zero or has the sign of `a`, and is smaller than `b` in size. */
  function CDiv(a: int, b: int): (q: int)
    requires b != 0
    ensures var rem := a - q * b; Abs(rem) < Abs(b) && (rem == 0 || (rem < 0 <==> a < 0))
  {
    var m := Abs(a) / Abs(b);
    var q := if (a < 0) == (b < 0) then m else -m;
    TruncatedRemainder(a, b, m, q);
    q
  }

  /** The remainder of the truncated quotient has the size of the remainder
      of the quotient of the sizes, and the sign of `a`. */
  lemma TruncatedRemainder(a: int, b: int, m: int, q: int)
    requires b != 0 && m == Abs(a) / Abs(b) && q == (if (a < 0) == (b < 0) then m else -m)
    ensures 0 <= Abs(a) - m * Abs(b) < Abs(b)
    ensures a - q * b == (if a < 0 then -(Abs(a) - m * Abs(b)) else Abs(a) - m * Abs(b))
  {
    if b < 0 {
      assert q * b == (if a < 0 then -(m * Abs(b)) else m * Abs(b));
    } else {
      assert q * b == (if a < 0 then -(m * Abs(b)) else m * Abs(b));
    }
  }
}
