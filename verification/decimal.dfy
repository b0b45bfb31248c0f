/** Decimal text of integers, as JavaScript's `"" + n` writes it for the indices and counters
    the overlays put into element ids and labels. */
module Decimal {
  import opened Common

  predicate IsDigit(c: char) {
    '0' <= c <= '9'
  }

  predicate AllDigits(s: string) {
    forall i :: 0 <= i < |s| ==> IsDigit(s[i])
  }

  function DigitChar(d: nat): (c: char)
    requires d < 10
    ensures IsDigit(c) && c as int - '0' as int == d
  {
    ('0' as int + d) as char
  }

  /** The shortest numeral of n: at least one digit, and a leading zero only for zero itself. */
  function Digits(n: nat): (r: string)
    ensures 1 <= |r| && AllDigits(r)
    ensures r[0] == '0' <==> n == 0
    decreases n
  {
    if n < 10 then [DigitChar(n)] else Digits(n / 10) + [DigitChar(n % 10)]
  }

  /** The number a string of digits denotes. */
  function Value(s: string): nat
    requires AllDigits(s)
  {
    if s == [] then 0 else Value(s[..|s| - 1]) * 10 + (s[|s| - 1] as int - '0' as int)
  }

  /** Reads a numeral back; only canonical numerals (no leading zero) are accepted. */
  function Parse(s: string): (r: Option<nat>)
    ensures r.Some? ==> 1 <= |s| && AllDigits(s)
  {
    if 1 <= |s| && AllDigits(s) && (s[0] == '0' ==> |s| == 1) then Some(Value(s)) else None
  }

  lemma {:induction false} ValueOfDigits(n: nat)
    ensures Value(Digits(n)) == n
    decreases n
  {
    if n >= 10 {
      var p := Digits(n / 10);
      ValueOfDigits(n / 10);
      assert (p + [DigitChar(n % 10)])[..|p|] == p;
    }
  }

  /** Parse inverts Digits. */
  lemma ParseDigits(n: nat)
    ensures Parse(Digits(n)) == Some(n)
  {
    ValueOfDigits(n);
  }

  /** Distinct numbers have distinct numerals. */
  lemma DigitsInjective(a: nat, b: nat)
    ensures Digits(a) == Digits(b) <==> a == b
  {
    if Digits(a) == Digits(b) {
      ParseDigits(a);
      ParseDigits(b);
    }
  }

  /** `"" + n` for an integer n. */
  function IntString(n: int): (r: string)
  {
    if n < 0 then "-" + Digits(-n) else Digits(n)
  }

  /** Reads back what IntString writes. */
  function ParseInt(s: string): Option<int>
  {
    if 2 <= |s| && s[0] == '-' then
      match Parse(s[1..])
      case Some(k) => if k > 0 then Some(0 - k as int) else None
      case None => None
    else
      match Parse(s)
      case Some(k) => Some(k as int)
      case None => None
  }

  /** ParseInt inverts IntString, so the numeral in a label determines the number. */
  lemma ParseIntString(n: int)
    ensures ParseInt(IntString(n)) == Some(n)
  {
    if n < 0 {
      var d := Digits(-n);
      assert ("-" + d)[1..] == d;
      ParseDigits(-n);
    } else {
      ParseDigits(n);
    }
  }
}
