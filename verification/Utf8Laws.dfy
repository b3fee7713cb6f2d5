/** What the sanitiser does to whole strings: the laws its callers rely on. */
module Utf8Laws {
  import opened Basics
  import opened Lines
  import opened Utf8

  // ----- where a character ends does not depend on what follows it -----

  lemma CharLengthOfConcat(a: seq<byte>, b: seq<byte>)
    requires a != []
    requires CharLength(a) > 0 || b == [] || !Tail(b[0])
    ensures CharLength(a + b) == CharLength(a)
  {
    if b == [] {
      assert a + b == a;
    } else {
      assert (a + b)[|a|] == b[0];
    }
  }

  lemma CharLengthOfPrefix(s: seq<byte>, n: nat)
    requires n <= |s|
    ensures CharLength(s[..n]) == if CharLength(s) <= n then CharLength(s) else 0
  {
  }

  lemma NoCharStartsWithTail(s: seq<byte>)
    requires s != [] && Tail(s[0])
    ensures CharLength(s) == 0
  {
  }

  lemma CharsEndInTails(s: seq<byte>)
    ensures forall k :: 1 <= k < CharLength(s) ==> Tail(s[k])
  {
  }

  lemma ScalarsAre(v: CodePoint)
    ensures Scalar(v) <==> v < 0xD800 || 0xE000 <= v < 0x110000
  {
  }

  /** A UTF8-char is the encoding of a code point up to U+10FFFF that is no surrogate, and what the sanitiser
      puts in is the encoding of U+FFFD. */
  lemma CharsAreEncodings(s: seq<byte>, n: nat)
    requires 0 < n <= |s|
    ensures CharLength(s) == n <==>
      exists v: CodePoint :: (v < 0xD800 || 0xE000 <= v < 0x110000) && Scalar(v) && s[..n] == Encode(v)
    ensures REPLACEMENT == [0xEF, 0xBF, 0xBD] == Encode(0xFFFD)
  {
    var c := s[..n];
    if CharLength(s) == n {
      CharLengthOfPrefix(s, n);
      EncodeUndoesDecode(c);
      ScalarsAre(Decode(c));
    }
    if exists v: CodePoint :: (v < 0xD800 || 0xE000 <= v < 0x110000) && Scalar(v) && c == Encode(v) {
      var v: CodePoint :| (v < 0xD800 || 0xE000 <= v < 0x110000) && Scalar(v) && c == Encode(v);
      DecodeUndoesEncode(v);
      hide CharLength, Encode, Scalar;
      CharLengthOfConcat(c, s[n..]);
      assert s == c + s[n..];
    }
  }

  // ----- well-formedness -----

  lemma SanitizedOfChar(c: seq<byte>, b: seq<byte>)
    requires c != [] && CharLength(c) == |c|
    ensures Sanitized(c + b) == c + Sanitized(b)
    ensures WellFormed(c + b) == WellFormed(b)
  {
    hide CharLength;
    CharLengthOfConcat(c, b);
    assert (c + b)[..|c|] == c;
    assert (c + b)[|c|..] == b;
  }

  lemma FirstChar(s: seq<byte>)
    requires CharLength(s) > 0
    ensures var c := s[..CharLength(s)]; CharLength(c) == |c| && s == c + s[|c|..]
  {
    CharLengthOfPrefix(s, CharLength(s));
  }

  lemma ReplacementIsChar()
    ensures CharLength(REPLACEMENT) == 3 == |REPLACEMENT|
  {
  }

  /** Only well-formed UTF-8 comes out. */
  lemma {:induction false} SanitizedIsWellFormed(s: seq<byte>)
    ensures WellFormed(Sanitized(s))
    ensures |Sanitized(s)| <= 3 * |s|
    decreases |s|
  {
    hide CharLength;
    if s != [] {
      var n := CharLength(s);
      if n == 0 {
        SanitizedIsWellFormed(s[1..]);
        ReplacementIsChar();
        SanitizedOfChar(REPLACEMENT, Sanitized(s[1..]));
      } else {
        SanitizedIsWellFormed(s[n..]);
        FirstChar(s);
        SanitizedOfChar(s[..n], Sanitized(s[n..]));
      }
    }
  }

  lemma {:induction false} SanitizedAfterWellFormed(a: seq<byte>, b: seq<byte>)
    requires WellFormed(a)
    ensures Sanitized(a + b) == a + Sanitized(b)
    ensures WellFormed(a + b) == WellFormed(b)
    decreases |a|
  {
    hide CharLength;
    if a == [] {
      assert a + b == b;
    } else {
      FirstChar(a);
      var c, rest := a[..CharLength(a)], a[CharLength(a)..];
      assert a + b == c + (rest + b);
      SanitizedOfChar(c, rest + b);
      SanitizedAfterWellFormed(rest, b);
    }
  }

  /** The sanitiser changes nothing exactly when the input was well-formed. */
  lemma {:induction false} SanitizedFixesWellFormed(s: seq<byte>)
    ensures Sanitized(s) == s <==> WellFormed(s)
  {
    if WellFormed(s) {
      SanitizedAfterWellFormed(s, []);
      assert s + [] == s;
    }
    SanitizedIsWellFormed(s);
  }

  lemma SanitizedIsIdempotent(s: seq<byte>)
    ensures Sanitized(Sanitized(s)) == Sanitized(s)
  {
    SanitizedIsWellFormed(s);
    SanitizedFixesWellFormed(Sanitized(s));
  }

  // ----- concatenation -----

  /** Sanitising distributes over concatenation wherever the cut cannot fall inside a character. */
  lemma {:induction false} SanitizedOfConcat(a: seq<byte>, b: seq<byte>)
    requires WellFormed(a) || b == [] || !Tail(b[0])
    ensures Sanitized(a + b) == Sanitized(a) + Sanitized(b)
    decreases |a|
  {
    if WellFormed(a) {
      SanitizedAfterWellFormed(a, b);
      SanitizedFixesWellFormed(a);
    } else {
      SanitizedBeforeLead(a, b);
    }
  }

  lemma {:induction false} SanitizedBeforeLead(a: seq<byte>, b: seq<byte>)
    requires b == [] || !Tail(b[0])
    ensures Sanitized(a + b) == Sanitized(a) + Sanitized(b)
    decreases |a|
  {
    hide CharLength, Tail;
    if a == [] {
      assert a + b == b;
    } else {
      CharLengthOfConcat(a, b);
      var n := CharLength(a);
      if n == 0 {
        assert (a + b)[1..] == a[1..] + b;
        SanitizedBeforeLead(a[1..], b);
        Associate(REPLACEMENT, Sanitized(a[1..]), Sanitized(b));
      } else {
        assert (a + b)[..n] == a[..n];
        assert (a + b)[n..] == a[n..] + b;
        SanitizedBeforeLead(a[n..], b);
        Associate(a[..n], Sanitized(a[n..]), Sanitized(b));
      }
    }
  }

  // ----- newlines -----

  function SanitizedLines(lines: seq<seq<byte>>): (r: seq<seq<byte>>)
    ensures |r| == |lines|
  {
    if lines == [] then [] else [Sanitized(lines[0])] + SanitizedLines(lines[1..])
  }

  lemma {:induction false} SanitizedKeepsNewlines(s: seq<byte>)
    ensures NEWLINE in Sanitized(s) <==> NEWLINE in s
    decreases |s|
  {
    hide CharLength;
    if s != [] {
      var n := CharLength(s);
      if n == 0 {
        HeadIsNoNewline(s);
        SanitizedKeepsNewlines(s[1..]);
        assert s == [s[0]] + s[1..];
      } else {
        SanitizedKeepsNewlines(s[n..]);
        assert s == s[..n] + s[n..];
      }
    }
  }

  lemma HeadIsNoNewline(s: seq<byte>)
    requires s != [] && CharLength(s) == 0
    ensures s[0] != NEWLINE
  {
  }

  lemma SanitizedOfLine(line: seq<byte>, rest: seq<byte>)
    ensures Sanitized(line + [NEWLINE] + rest) == Sanitized(line) + [NEWLINE] + Sanitized(rest)
  {
    assert line + [NEWLINE] + rest == line + ([NEWLINE] + rest);
    SanitizedOfConcat(line, [NEWLINE] + rest);
    SanitizedOfChar([NEWLINE], rest);
    Associate(Sanitized(line), [NEWLINE], Sanitized(rest));
  }

  lemma SanitizedLinesOfCons(line: seq<byte>, lines: seq<seq<byte>>)
    ensures SanitizedLines([line] + lines) == [Sanitized(line)] + SanitizedLines(lines)
  {
    assert ([line] + lines)[1..] == lines;
  }

  /** Sanitising a text and then splitting it is splitting it and then sanitising each line. */
  lemma {:induction false} SanitizedCommutesWithSplit(s: seq<byte>)
    ensures Split(Sanitized(s)) == SanitizedLines(Split(s))
    ensures Newlines(Sanitized(s)) == Newlines(s)
    decreases |s|
  {
    hide Sanitized, Split, SanitizedLines, Newlines;
    var i := FirstNewline(s);
    FirstNewlineIs(s, i);
    var line := s[..i];
    SanitizedKeepsNewlines(line);
    if i < |s| {
      var rest := s[i + 1..];
      assert s == line + [NEWLINE] + rest;
      SanitizedOfLine(line, rest);
      SplitOfLine(line, rest);
      SplitOfLine(Sanitized(line), Sanitized(rest));
      SanitizedLinesOfCons(line, Split(rest));
      SanitizedCommutesWithSplit(rest);
    } else {
      assert s == line;
      SplitOfUnterminated(s);
      SplitOfUnterminated(Sanitized(s));
      LinesOfOne(s);
    }
  }

  lemma LinesOfOne(s: seq<byte>)
    ensures SanitizedLines([]) == [] && SanitizedLines([s]) == [Sanitized(s)]
    ensures s == [] <==> Sanitized(s) == []
  {
    hide CharLength;
  }

  // ----- cutting a well-formed line -----

  function Repeat(unit: seq<byte>, n: nat): (r: seq<byte>) {
    if n == 0 then [] else unit + Repeat(unit, n - 1)
  }

  /** Length of the longest run of whole characters of `s` within its first `n` bytes. */
  function WholeChars(s: seq<byte>, n: nat): (k: nat)
    ensures k <= n && k <= |s|
    decreases |s|
  {
    var c := CharLength(s);
    if c == 0 || c > n then 0 else c + WholeChars(s[c..], n - c)
  }

  /** A proper prefix of one character is sanitised byte by byte. */
  lemma {:induction false} SanitizedOfTails(t: seq<byte>)
    requires forall k :: 0 <= k < |t| ==> Tail(t[k])
    ensures Sanitized(t) == Repeat(REPLACEMENT, |t|)
  {
    hide CharLength, Tail;
    if t != [] {
      NoCharStartsWithTail(t);
      SanitizedOfTails(t[1..]);
    }
  }

  lemma SanitizedOfBrokenChar(s: seq<byte>, n: nat)
    requires n < CharLength(s)
    ensures Sanitized(s[..n]) == Repeat(REPLACEMENT, n)
  {
    hide Tail, CharLength;
    CharLengthOfPrefix(s, n);
    CharsEndInTails(s);
    if n > 0 {
      assert s[..n][1..] == s[1..n];
      SanitizedOfTails(s[1..n]);
    }
  }

  /** A well-formed line cut to `n` bytes and sanitised is its longest well-formed prefix within `n`
      bytes, followed by one U+FFFD for each of the at most three bytes of the character cut in two. */
  lemma {:induction false} SanitizedOfCut(s: seq<byte>, n: nat)
    requires WellFormed(s) && n <= |s|
    ensures var k := WholeChars(s, n);
      && k <= n <= k + 3
      && WellFormed(s[..k])
      && (forall j :: k < j <= n ==> !WellFormed(s[..j]))
      && Sanitized(s[..n]) == s[..k] + Repeat(REPLACEMENT, n - k)
    decreases |s|
  {
    hide CharLength, Sanitized, WholeChars, WellFormed;
    var c, k := CharLength(s), WholeChars(s, n);
    WholeCharsStep(s, n);
    if c == 0 || c > n {
      NothingWhole(s, n);
      assert s[..0] + Repeat(REPLACEMENT, n) == Repeat(REPLACEMENT, n);
    } else {
      var head, rest := s[..c], s[c..];
      FirstChar(s);
      SanitizedOfChar(head, rest);
      SanitizedOfCut(rest, n - c);
      forall j | c <= j <= n ensures WellFormed(s[..j]) == WellFormed(rest[..j - c]) {
        assert s[..j] == head + rest[..j - c];
        SanitizedOfChar(head, rest[..j - c]);
      }
      assert s[..n] == head + rest[..n - c];
      SanitizedOfChar(head, rest[..n - c]);
      assert s[..k] == head + rest[..k - c];
      Associate(head, rest[..k - c], Repeat(REPLACEMENT, n - k));
    }
  }

  lemma WholeCharsStep(s: seq<byte>, n: nat)
    ensures var c := CharLength(s);
      WholeChars(s, n) == if c == 0 || c > n then 0 else c + WholeChars(s[c..], n - c)
  {
    hide CharLength;
  }

  /** No whole character fits. */
  lemma NothingWhole(s: seq<byte>, n: nat)
    requires WellFormed(s) && n <= |s| && (CharLength(s) == 0 || n < CharLength(s))
    ensures n <= 3 && WellFormed(s[..0])
    ensures forall j :: 0 < j <= n ==> !WellFormed(s[..j])
    ensures Sanitized(s[..n]) == Repeat(REPLACEMENT, n)
  {
    hide CharLength;
    if s == [] {
      assert s[..n] == [];
    } else {
      SanitizedOfBrokenChar(s, n);
      forall j | 0 < j <= n ensures !WellFormed(s[..j]) {
        CharLengthOfPrefix(s, j);
      }
    }
  }
}
