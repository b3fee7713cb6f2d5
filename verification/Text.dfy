/** Searching and splitting text, and formatted extraction from a stream (`operator>>`). */
module Text {
  import opened Basics
  import opened Digits

  /** `std::isspace` in the C locale. */
  predicate IsSpace(c: char) {
    c == ' ' || '\t' <= c <= '\r'
  }

  // ----- searching -----

  /** Index of the first occurrence of `c`, or the length. */
  function First(s: string, c: char): (i: nat)
    ensures i <= |s|
    ensures i < |s| ==> s[i] == c
  {
    if s == [] || s[0] == c then 0 else 1 + First(s[1..], c)
  }

  lemma {:induction false} FirstIs(s: string, c: char, i: nat)
    requires i <= |s|
    ensures i == First(s, c) <==> c !in s[..i] && (i < |s| ==> s[i] == c)
  {
    if s != [] && i > 0 {
      assert s[..i] == [s[0]] + s[1..][..i - 1];
      FirstIs(s[1..], c, i - 1);
    }
  }

  /** Index just past the last occurrence of `c`, or 0. */
  function PastLast(s: string, c: char): (i: nat)
    ensures i <= |s|
    ensures i > 0 ==> s[i - 1] == c
  {
    if s == [] then 0 else if s[|s| - 1] == c then |s| else PastLast(s[..|s| - 1], c)
  }

  lemma {:induction false} PastLastOfConcat(a: string, c: char, b: string)
    requires c !in b
    ensures PastLast(a + [c] + b, c) == |a| + 1
  {
    var s := a + [c] + b;
    if b != [] {
      assert s[..|s| - 1] == a + [c] + b[..|b| - 1];
      PastLastOfConcat(a, c, b[..|b| - 1]);
    }
  }

  lemma {:induction false} NothingPastLast(s: string, c: char)
    ensures c !in s[PastLast(s, c)..]
  {
    if s != [] && s[|s| - 1] != c {
      NothingPastLast(s[..|s| - 1], c);
      var i := PastLast(s, c);
      assert s[i..] == s[..|s| - 1][i..] + [s[|s| - 1]];
    }
  }

  /** The segments that a `std::getline` loop with this separator yields. */
  function Segments(s: string, separator: char): (r: seq<string>)
    decreases |s|
  {
    var i := First(s, separator);
    if s == [] then [] else if i == |s| then [s] else [s[..i]] + Segments(s[i + 1..], separator)
  }

  // ----- white space -----

  function SkipSpace(s: string): (r: string)
    ensures |r| <= |s|
    ensures r != [] ==> !IsSpace(r[0])
  {
    if s != [] && IsSpace(s[0]) then SkipSpace(s[1..]) else s
  }

  // ----- numbers -----

  const SIGNED_LIMIT: int := 0x8000_0000_0000_0000

  /** Length of the longest run of digits that `s` begins with. */
  function DigitRun(s: string, base: nat): (n: nat)
    ensures n <= |s|
    ensures AllDigits(s[..n], base)
  {
    if s != [] && DigitValue(s[0]) < base then 1 + DigitRun(s[1..], base) else 0
  }

  lemma {:induction false} DigitRunOfConcat(a: string, b: string, base: nat)
    requires AllDigits(a, base)
    requires b == [] || DigitValue(b[0]) >= base
    ensures DigitRun(a + b, base) == |a|
  {
    if a == [] {
      assert a + b == b;
    } else {
      assert (a + b)[1..] == a[1..] + b;
      DigitRunOfConcat(a[1..], b, base);
    }
  }

  predicate HasSign(s: string) {
    s != [] && (s[0] == '-' || s[0] == '+')
  }

  /** A sign and the digits after it, as `std::num_get` reads a decimal number: the sign, the magnitude
      and what is left, or nothing when there is no digit. */
  function Number(s: string): (r: Option<(bool, nat, string)>) {
    var body := if HasSign(s) then s[1..] else s;
    var n := DigitRun(body, 10);
    if n == 0 then None
    else Some((HasSign(s) && s[0] == '-', Value(body[..n], 10), body[n..]))
  }

  /** Extraction into an unsigned 64-bit integer: a negative number wraps, a magnitude that does not fit fails. */
  function ExtractUnsigned(s: string): (r: Option<(nat, string)>)
    ensures r.Some? ==> r.value.0 < WORD
  {
    match Number(SkipSpace(s))
    case None => None
    case Some((negative, magnitude, rest)) =>
      if magnitude >= WORD then None
      else Some((if negative then (WORD - magnitude) % WORD else magnitude, rest))
  }

  /** Extraction into a signed 64-bit integer. */
  function ExtractSigned(s: string): (r: Option<(int, string)>) {
    match Number(SkipSpace(s))
    case None => None
    case Some((negative, magnitude, rest)) =>
      if negative then
        if magnitude > SIGNED_LIMIT then None else Some((0 - magnitude, rest))
      else if magnitude >= SIGNED_LIMIT then None
      else Some((magnitude, rest))
  }

  /** Extraction of one character. */
  function ExtractChar(s: string): (r: Option<(char, string)>) {
    var t := SkipSpace(s);
    if t == [] then None else Some((t[0], t[1..]))
  }

  function WordLength(s: string): (n: nat)
    ensures n <= |s|
    ensures s != [] && !IsSpace(s[0]) ==> n > 0
  {
    if s == [] || IsSpace(s[0]) then 0 else 1 + WordLength(s[1..])
  }

  /** Extraction of a string: one run of characters without white space. */
  function ExtractWord(s: string): (r: Option<(string, string)>)
    ensures r.Some? ==> |r.value.1| < |s|
  {
    var t := SkipSpace(s);
    if t == [] then None else Some((t[..WordLength(t)], t[WordLength(t)..]))
  }

  // ----- printing and reading back -----

  function PrintInt(x: int): (s: string)
    ensures s != []
  {
    if x < 0 then "-" + Decimal(-x) else Decimal(x)
  }

  /** The text after a number does not continue it. */
  predicate EndsNumber(rest: string) {
    rest == [] || DigitValue(rest[0]) >= 10
  }

  lemma DecimalIsRead(n: nat, rest: string)
    requires EndsNumber(rest)
    ensures var s := Decimal(n) + rest;
      var k := DigitRun(s, 10);
      && k == |Decimal(n)| > 0
      && s[..k] == Decimal(n) && s[k..] == rest
      && AllDigits(Decimal(n), 10) && Value(Decimal(n), 10) == n
      && DigitValue(s[0]) < 10
  {
    hide Value, DigitRun, Print;
    ValueUndoesPrint(n, 10);
    DigitRunOfConcat(Decimal(n), rest, 10);
  }

  lemma NumberOfPrinted(x: int, rest: string)
    requires EndsNumber(rest)
    ensures Number(PrintInt(x) + rest) == Some((x < 0, if x < 0 then -x else x, rest))
  {
    hide Value, DigitRun, Decimal;
    var n := if x < 0 then -x else x;
    DecimalIsRead(n, rest);
    var s := PrintInt(x) + rest;
    if x < 0 {
      assert s[1..] == Decimal(n) + rest;
    } else {
      assert s == Decimal(n) + rest;
      assert !HasSign(s);
    }
  }

  lemma SpaceBefore(s: string)
    requires s != [] && !IsSpace(s[0])
    ensures SkipSpace(s) == s && SkipSpace(" " + s) == s
  {
    assert (" " + s)[1..] == s;
  }

  lemma PrintedIsNoSpace(x: int)
    ensures !IsSpace(PrintInt(x)[0])
  {
    hide Decimal;
    var n := if x < 0 then -x else x;
    DecimalIsRead(n, []);
    assert Decimal(n) + [] == Decimal(n);
  }

  /** A number is read back into an unsigned integer modulo 2^64, unless its magnitude does not fit. */
  lemma UnsignedOfPrinted(x: int, rest: string)
    requires EndsNumber(rest)
    ensures ExtractUnsigned(" " + PrintInt(x) + rest) ==
      if -0x1_0000_0000_0000_0000 < x < 0x1_0000_0000_0000_0000
      then Some((if x < 0 then x + 0x1_0000_0000_0000_0000 else x, rest)) else None
  {
    hide Number, SkipSpace, PrintInt;
    NumberOfPrinted(x, rest);
    PrintedIsNoSpace(x);
    SpaceBefore(PrintInt(x) + rest);
    assert " " + PrintInt(x) + rest == " " + (PrintInt(x) + rest);
  }

  /** Into a signed one, exactly in its range. */
  lemma SignedOfPrinted(x: int, rest: string)
    requires EndsNumber(rest)
    ensures var r := if -0x8000_0000_0000_0000 <= x < 0x8000_0000_0000_0000 then Some((x, rest)) else None;
      ExtractSigned(" " + PrintInt(x) + rest) == r && ExtractSigned(PrintInt(x) + rest) == r
  {
    hide Number, SkipSpace, PrintInt;
    NumberOfPrinted(x, rest);
    PrintedIsNoSpace(x);
    SpaceBefore(PrintInt(x) + rest);
    assert " " + PrintInt(x) + rest == " " + (PrintInt(x) + rest);
  }

  // ----- words and padding -----

  /** White space in the C locale, by character code. */
  predicate Separates(c: char) {
    c as int in {9, 10, 11, 12, 13, 32}
  }

  predicate IsWord(w: string) {
    w != [] && forall k :: 0 <= k < |w| ==> !Separates(w[k])
  }

  predicate IsBlank(s: string) {
    forall k :: 0 <= k < |s| ==> Separates(s[k])
  }

  lemma SpaceSeparates(c: char)
    ensures IsSpace(c) <==> Separates(c)
  {
  }

  lemma {:induction false} SkipBlank(blank: string, s: string)
    requires IsBlank(blank)
    ensures SkipSpace(blank + s) == SkipSpace(s)
  {
    if blank == [] {
      assert blank + s == s;
    } else {
      assert (blank + s)[1..] == blank[1..] + s;
      assert Separates(blank[0]);
      SkipBlank(blank[1..], s);
    }
  }

  lemma {:induction false} WordLengthOfConcat(w: string, rest: string)
    requires forall k :: 0 <= k < |w| ==> !Separates(w[k])
    requires rest == [] || Separates(rest[0])
    ensures WordLength(w + rest) == |w|
  {
    if w == [] {
      assert w + rest == rest;
    } else {
      assert (w + rest)[1..] == w[1..] + rest;
      WordLengthOfConcat(w[1..], rest);
    }
  }
}
