/** Numbers written in base 10 or 16, as `std::to_string`, `printf` and the kernel write them. */
module Digits {
  const DIGITS: string := "0123456789ABCDEF"

  /** The value of a digit in any base up to 16, in either case; 16 for every other character. */
  function DigitValue(c: char): (d: nat)
    ensures d <= 16
  {
    if '0' <= c <= '9' then c as nat - '0' as nat
    else if 'a' <= c <= 'f' then c as nat - 'a' as nat + 10
    else if 'A' <= c <= 'F' then c as nat - 'A' as nat + 10
    else 16
  }

  predicate AllDigits(s: string, base: nat) {
    forall k :: 0 <= k < |s| ==> DigitValue(s[k]) < base
  }

  function Value(s: string, base: nat): (n: nat)
    requires base == 10 || base == 16
    requires AllDigits(s, base)
  {
    if s == [] then 0 else Value(s[..|s| - 1], base) * base + DigitValue(s[|s| - 1])
  }

  function Print(n: nat, base: nat): (s: string)
    requires base == 10 || base == 16
    ensures s != []
    decreases n
  {
    (if n < base then [] else Print(n / base, base)) + [DIGITS[n % base]]
  }

  function Decimal(n: nat): (s: string) {
    Print(n, 10)
  }

  lemma DigitOf(d: nat)
    requires d < 16
    ensures DigitValue(DIGITS[d]) == d
  {
  }

  lemma ValueOfSnoc(s: string, c: char, base: nat)
    requires base == 10 || base == 16
    requires AllDigits(s, base) && DigitValue(c) < base
    ensures AllDigits(s + [c], base)
    ensures Value(s + [c], base) == Value(s, base) * base + DigitValue(c)
  {
    assert (s + [c])[..|s|] == s;
  }

  /** Reading undoes printing; in particular printing is injective. */
  lemma {:induction false} ValueUndoesPrint(n: nat, base: nat)
    requires base == 10 || base == 16
    ensures AllDigits(Print(n, base), base)
    ensures Value(Print(n, base), base) == n
    decreases n
  {
    hide Value, DigitValue, Print;
    PrintStep(n, base);
    DivisionWithRemainder(n, base);
    var last := n % base;
    DigitOf(last);
    if n < base {
      ValueOfNothing(base);
      ValueOfSnoc([], DIGITS[last], base);
    } else {
      ValueUndoesPrint(n / base, base);
      ValueOfSnoc(Print(n / base, base), DIGITS[last], base);
    }
  }

  lemma PrintStep(n: nat, base: nat)
    requires base == 10 || base == 16
    ensures n % base < 16
    ensures n < base ==> Print(n, base) == [] + [DIGITS[n % base]]
    ensures n >= base ==> Print(n, base) == Print(n / base, base) + [DIGITS[n % base]]
  {
  }

  lemma ValueOfNothing(base: nat)
    requires base == 10 || base == 16
    ensures Value([], base) == 0 && AllDigits([], base)
  {
  }

  lemma DivisionWithRemainder(n: nat, base: nat)
    requires base == 10 || base == 16
    ensures n % base < base && n / base * base + n % base == n
    ensures if n < base then n % base == n else n / base < n
  {
    assert base == 10 ==> n / 10 * 10 + n % 10 == n;
    assert base == 16 ==> n / 16 * 16 + n % 16 == n;
  }

  /** A decimal number holds no separator. */
  lemma DecimalHasNo(n: nat, c: char)
    requires DigitValue(c) >= 10
    ensures c !in Decimal(n)
  {
    ValueUndoesPrint(n, 10);
  }
}
