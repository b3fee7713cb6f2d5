/** What the sanitiser makes of neighbouring pieces of 4096 bytes of one well-formed line. */
module WindowLaws {
  import opened Basics
  import opened Lines
  import opened LogFollow
  import opened Utf8
  import opened Utf8Laws

  // ----- cutting at either end -----

  lemma {:induction false} LengthOfRepeat(unit: seq<byte>, n: nat)
    ensures |Repeat(unit, n)| == |unit| * n
  {
    if n > 0 {
      LengthOfRepeat(unit, n - 1);
    }
  }

  lemma WholeSuffix(s: seq<byte>, k: nat)
    requires WellFormed(s) && k <= |s| && WellFormed(s[..k])
    ensures WellFormed(s[k..])
  {
    hide CharLength, WellFormed;
    assert s == s[..k] + s[k..];
    SanitizedAfterWellFormed(s[..k], s[k..]);
  }

  /** Each byte cut off the end of a character costs two bytes more than a whole one. */
  lemma LengthOfCut(s: seq<byte>, n: nat)
    requires WellFormed(s) && n <= |s|
    ensures |Sanitized(s[..n])| == 3 * n - 2 * WholeChars(s, n)
  {
    hide CharLength, Sanitized, WholeChars, WellFormed;
    SanitizedOfCut(s, n);
    LengthOfRepeat(REPLACEMENT, n - WholeChars(s, n));
  }

  lemma SanitizedOfBadByte(b: byte, rest: seq<byte>)
    requires CharLength([b] + rest) == 0
    ensures Sanitized([b] + rest) == REPLACEMENT + Sanitized(rest)
  {
    hide CharLength;
    assert ([b] + rest)[1..] == rest;
  }

  lemma {:induction false} SanitizedAfterTails(t: seq<byte>, rest: seq<byte>)
    requires forall k :: 0 <= k < |t| ==> Tail(t[k])
    ensures Sanitized(t + rest) == Repeat(REPLACEMENT, |t|) + Sanitized(rest)
  {
    hide CharLength, Tail, Sanitized;
    if t == [] {
      assert t + rest == rest;
    } else {
      var more := t[1..] + rest;
      assert t + rest == [t[0]] + more;
      NoCharStartsWithTail([t[0]] + more);
      SanitizedOfBadByte(t[0], more);
      SanitizedAfterTails(t[1..], rest);
      Associate(REPLACEMENT, Repeat(REPLACEMENT, |t| - 1), Sanitized(rest));
    }
  }

  /** What is left of a character when its first byte is cut off. */
  lemma WithoutFirstByte(s: seq<byte>, n: nat)
    requires s != [] && CharLength(s) == n > 0
    ensures Sanitized(s) == s[..n] + Sanitized(s[n..])
    ensures Sanitized(s[1..]) == Repeat(REPLACEMENT, n - 1) + Sanitized(s[n..])
  {
    FirstChar(s);
    CharsEndInTails(s);
    hide CharLength, Tail;
    SanitizedOfChar(s[..n], s[n..]);
    assert s[1..] == s[1..n] + s[n..];
    SanitizedAfterTails(s[1..n], s[n..]);
  }

  /** Dropping the first byte always shows. */
  lemma FirstByteShows(s: seq<byte>)
    requires s != []
    ensures Sanitized(s) != Sanitized(s[1..])
  {
    hide Tail, Repeat;
    var n := CharLength(s);
    if n == 0 {
      assert |Sanitized(s)| == 3 + |Sanitized(s[1..])|;
    } else {
      WithoutFirstByte(s, n);
      LengthOfRepeat(REPLACEMENT, n - 1);
      hide CharLength, Sanitized;
      assert |Sanitized(s[1..])| == 3 * (n - 1) + |Sanitized(s[n..])|;
    }
  }

  // ----- two neighbouring windows -----

  /** A cut that costs one byte more than the cut before it ends with a character of one byte. */
  lemma LetterEnds(t: seq<byte>, m: nat)
    requires WellFormed(t) && 0 < m <= |t|
    requires |Sanitized(t[..m])| == 1 + |Sanitized(t[..m - 1])|
    ensures Sanitized(t[..m]) == t[..m] && Sanitized(t[..m - 1]) == t[..m - 1]
  {
    hide CharLength, Sanitized, WholeChars, WellFormed, Repeat;
    LengthOfCut(t, m - 1);
    LengthOfCut(t, m);
    SanitizedOfCut(t, m - 1);
    SanitizedOfCut(t, m);
    var k := WholeChars(t, m);
    assert WholeChars(t, m - 1) == k - 1;
    assert k == m;
    NothingRepeated();
    assert t[..m - 1] + [] == t[..m - 1];
    assert t[..m] + [] == t[..m];
  }

  /** Two neighbouring cuts of 4096 bytes, where a character of one byte leaves the window. */
  lemma LetterLeaves(s: seq<byte>)
    requires WellFormed(s) && |s| > MAXIMUM_LINE && CharLength(s) == 1
    requires Sanitized(s[..MAXIMUM_LINE]) == Sanitized(s[1..MAXIMUM_LINE + 1])
    ensures s[..MAXIMUM_LINE] == s[1..MAXIMUM_LINE + 1]
  {
    FirstChar(s);
    hide CharLength, Sanitized, WellFormed;
    var m: nat, x, t := MAXIMUM_LINE, s[..1], s[1..];
    SanitizedOfChar(x, t);
    SanitizedOfChar(x, t[..m - 1]);
    DropAndTake(s, 1, m);
    DropAndTake(s, 1, m + 1);
    LetterEnds(t, m);
  }

  lemma NothingRepeated()
    ensures Repeat(REPLACEMENT, 0) == []
  {
  }

  lemma {:induction false} ThreeByThree(z: seq<byte>, i: nat)
    requires 3 <= |z| && i < |z| - 3
    requires z[..|z| - 3] + REPLACEMENT + REPLACEMENT == REPLACEMENT + z
    ensures z[i] == REPLACEMENT[i % 3]
  {
    var a, b := z[..|z| - 3] + REPLACEMENT + REPLACEMENT, REPLACEMENT + z;
    assert a[i] == z[i];
    assert b[i] == if i < 3 then REPLACEMENT[i] else z[i - 3];
    if i >= 3 {
      ThreeByThree(z, i - 3);
    }
  }

  /** Two neighbouring cuts, where a character of three bytes leaves the window: it could only be U+FFFD,
      and the windows would have to be made of nothing else, which 4096 is not a multiple of. */
  lemma ReplacementLeaves(t: seq<byte>)
    requires WellFormed(t) && |t| >= MAXIMUM_LINE - 2
    ensures REPLACEMENT + Sanitized(t[..MAXIMUM_LINE - 3]) != Repeat(REPLACEMENT, 2) + Sanitized(t[..MAXIMUM_LINE - 2])
  {
    var m: nat := MAXIMUM_LINE;
    TwiceRepeated();
    hide CharLength, Sanitized, WholeChars, WellFormed, Repeat;
    LengthOfCut(t, m - 3);
    LengthOfCut(t, m - 2);
    SanitizedOfCut(t, m - 3);
    SanitizedOfCut(t, m - 2);
    if REPLACEMENT + Sanitized(t[..m - 3]) == Repeat(REPLACEMENT, 2) + Sanitized(t[..m - 2]) {
      var k := WholeChars(t, m - 2);
      assert WholeChars(t, m - 3) == k - 3;
      assert k == m - 2;
      NothingRepeated();
      var z := t[..m - 2];
      assert z + [] == z;
      assert t[..k - 3] == z[..|z| - 3];
      var left := z[..|z| - 3] + REPLACEMENT + REPLACEMENT;
      assert left == z[..|z| - 3] + (REPLACEMENT + REPLACEMENT);
      assert REPLACEMENT + left == REPLACEMENT + (REPLACEMENT + z);
      assert left == (REPLACEMENT + left)[3..] == REPLACEMENT + z;
      ThreeByThree(z, m - 8);
      OutOfStep(z);
    }
  }

  lemma OutOfStep(z: seq<byte>)
    requires |z| == MAXIMUM_LINE - 2 && z[MAXIMUM_LINE - 8] == REPLACEMENT[2]
    ensures z[..|z| - 3] + REPLACEMENT + REPLACEMENT != REPLACEMENT + z
  {
    var k: nat := MAXIMUM_LINE - 5;
    assert (z[..|z| - 3] + REPLACEMENT + REPLACEMENT)[k] == REPLACEMENT[0];
    assert (REPLACEMENT + z)[k] == z[MAXIMUM_LINE - 8];
  }

  lemma TwiceRepeated()
    ensures Repeat(REPLACEMENT, 2) == REPLACEMENT + REPLACEMENT
    ensures Repeat(REPLACEMENT, 1) == REPLACEMENT
  {
    assert Repeat(REPLACEMENT, 0) == [];
    assert REPLACEMENT + [] == REPLACEMENT;
    assert Repeat(REPLACEMENT, 1) == REPLACEMENT;
  }

  lemma LongCharStartsReplacement(c: seq<byte>, n: nat)
    requires CharLength(c) == n >= 2 && |c| >= n
    ensures c[0] == REPLACEMENT[0] ==> n == 3
  {
  }

  lemma WindowOnChar(s: seq<byte>, n: nat)
    requires WellFormed(s) && |s| > MAXIMUM_LINE && CharLength(s) == n > 0
    ensures n <= 4 && WellFormed(s[n..])
    ensures Sanitized(s[..MAXIMUM_LINE]) == s[..n] + Sanitized(s[n..][..MAXIMUM_LINE - n])
  {
    FirstChar(s);
    CharLengthIsSmall(s);
    hide CharLength, WellFormed, Sanitized;
    var m: nat, t := MAXIMUM_LINE, s[n..];
    SanitizedOfChar(s[..n], t);
    SanitizedOfChar(s[..n], t[..m - n]);
    DropAndTake(s, n, m);
  }

  lemma WindowPastChar(s: seq<byte>, n: nat)
    requires n <= 4 && |s| > MAXIMUM_LINE && CharLength(s) == n > 0
    ensures Sanitized(s[1..MAXIMUM_LINE + 1]) == Repeat(REPLACEMENT, n - 1) + Sanitized(s[n..][..MAXIMUM_LINE + 1 - n])
  {
    var m: nat := MAXIMUM_LINE;
    CharLengthOfPrefix(s, m + 1);
    hide CharLength, Sanitized;
    var w := s[..m + 1];
    WithoutFirstByte(w, n);
    DropAndTake(s, n, m + 1);
    DropAndTake(s, 1, m + 1);
    assert w[..n] == s[..n];
  }

  /** Two neighbouring cuts, where a longer character leaves the window, always differ. */
  lemma LongCharLeaves(s: seq<byte>)
    requires WellFormed(s) && |s| > MAXIMUM_LINE && CharLength(s) >= 2
    ensures Sanitized(s[..MAXIMUM_LINE]) != Sanitized(s[1..MAXIMUM_LINE + 1])
  {
    var m: nat, n := MAXIMUM_LINE, CharLength(s);
    LongCharStartsReplacement(s, n);
    WindowOnChar(s, n);
    WindowPastChar(s, n);
    hide CharLength, WellFormed, Sanitized, Repeat;
    var t := s[n..];
    if Sanitized(s[..m]) == Sanitized(s[1..m + 1]) {
      StartsWithReplacement(n - 1, Sanitized(t[..m + 1 - n]));
      SameHead(s[..n], Sanitized(t[..m - n]), Sanitized(s[1..m + 1]));
      assert n == 3;
      assert s[..3] == REPLACEMENT;
      ReplacementLeaves(t);
    }
  }

  lemma SameHead(c: seq<byte>, rest: seq<byte>, whole: seq<byte>)
    requires c + rest == whole && |whole| >= 3 && 0 < |c|
    ensures c[0] == whole[0] && (|c| == 3 ==> c == whole[..3])
  {
    assert (c + rest)[..|c|] == c;
  }

  lemma CharLengthIsSmall(s: seq<byte>)
    ensures CharLength(s) <= 4
  {
  }

  lemma StartsWithReplacement(n: nat, rest: seq<byte>)
    requires n > 0
    ensures var r := Repeat(REPLACEMENT, n) + rest; |r| >= 3 && r[..3] == REPLACEMENT && r[0] == REPLACEMENT[0]
  {
    assert Repeat(REPLACEMENT, n) == REPLACEMENT + Repeat(REPLACEMENT, n - 1);
  }

  // ----- all windows of a line -----

  predicate OneLetter(line: seq<byte>) {
    forall k :: 0 <= k < |line| - 1 ==> line[k] == line[k + 1]
  }

  lemma {:induction false} SameLetter(line: seq<byte>, i: nat)
    requires OneLetter(line) && i < |line|
    ensures line[i] == line[0]
  {
    if i > 0 {
      SameLetter(line, i - 1);
      assert line[i - 1] == line[i - 1 + 1];
    }
  }

  /** The 4096 bytes that end after `k`. */
  function Window(s: seq<byte>, k: nat): (w: seq<byte>)
    requires MAXIMUM_LINE <= k <= |s|
    ensures |w| == MAXIMUM_LINE
  {
    s[k - MAXIMUM_LINE..k]
  }

  lemma WindowIs(s: seq<byte>, k: nat)
    requires MAXIMUM_LINE <= k <= |s|
    ensures Window(s, k) == s[k - MAXIMUM_LINE..k]
  {
  }

  predicate AlikeWindows(s: seq<byte>) {
    forall k :: MAXIMUM_LINE <= k <= |s| ==> Sanitized(Window(s, k)) == Sanitized(Window(s, MAXIMUM_LINE))
  }

  lemma AlikeWindowsOfRest(s: seq<byte>)
    requires AlikeWindows(s) && |s| > MAXIMUM_LINE
    ensures AlikeWindows(s[1..])
    ensures Sanitized(s[..MAXIMUM_LINE]) == Sanitized(s[1..MAXIMUM_LINE + 1])
  {
    hide Sanitized;
    var m: nat, t := MAXIMUM_LINE, s[1..];
    assert Sanitized(Window(s, m + 1)) == Sanitized(Window(s, m));
    forall k | m <= k <= |t| ensures Sanitized(Window(t, k)) == Sanitized(Window(t, m)) {
      var next: nat := k + 1;
      assert Window(t, k) == Window(s, next);
      assert Window(t, m) == Window(s, m + 1);
    }
  }

  /** Windows of 4096 bytes of a well-formed line are all shown alike only where one letter is repeated. */
  lemma {:induction false} AlikeWindowsRepeat(s: seq<byte>)
    requires WellFormed(s) && |s| > MAXIMUM_LINE && AlikeWindows(s)
    ensures OneLetter(s) && s[0] < 0x80
    decreases |s|
  {
    hide AlikeWindows, CharLength, Sanitized, WellFormed;
    AlikeWindowsOfRest(s);
    FirstOfWellFormed(s);
    if CharLength(s) >= 2 {
      LongCharLeaves(s);
    }
    LetterLeaves(s);
    FirstCharIsWhole(s);
    WholeSuffix(s, 1);
    LetterIsAscii(s);
    var t := s[1..];
    if |t| > MAXIMUM_LINE {
      AlikeWindowsRepeat(t);
      OneMoreLetter(s);
    } else {
      assert forall k :: 0 <= k < |s| - 1 ==> s[..MAXIMUM_LINE][k] == s[1..MAXIMUM_LINE + 1][k];
    }
  }

  lemma FirstCharIsWhole(s: seq<byte>)
    requires CharLength(s) > 0
    ensures WellFormed(s[..CharLength(s)])
  {
    FirstChar(s);
    hide CharLength;
    var c := s[..CharLength(s)];
    SanitizedOfChar(c, []);
    assert c + [] == c;
  }

  lemma OneMoreLetter(s: seq<byte>)
    requires |s| > MAXIMUM_LINE && s[..MAXIMUM_LINE] == s[1..MAXIMUM_LINE + 1] && OneLetter(s[1..])
    ensures OneLetter(s)
  {
    forall k | 0 <= k < |s| - 1 ensures s[k] == s[k + 1] {
      if k > 0 {
        var j: nat := k - 1;
        assert s[1..][j] == s[1..][j + 1];
      } else {
        assert s[..MAXIMUM_LINE][0] == s[1..MAXIMUM_LINE + 1][0];
      }
    }
  }

  lemma FirstOfWellFormed(s: seq<byte>)
    requires WellFormed(s) && s != []
    ensures CharLength(s) > 0
  {
    hide CharLength;
  }

  lemma LetterIsAscii(s: seq<byte>)
    requires CharLength(s) == 1
    ensures s[0] < 0x80
  {
  }

  /** The characters of a well-formed line begin at most three bytes apart. */
  lemma NextCharacter(s: seq<byte>, q: nat) returns (p: nat)
    requires WellFormed(s) && q < |s|
    ensures q <= p <= q + 3 && p <= |s| && WellFormed(s[p..])
    ensures p > q ==> Tail(s[q])
  {
    hide CharLength, WellFormed, Sanitized, WholeChars, Tail;
    var k := WholeChars(s, q);
    SanitizedOfCut(s, q);
    WholeSuffix(s, k);
    p := k;
    if k < q {
      var t := s[k..];
      FirstOfWellFormed(t);
      CharLengthIsSmall(t);
      var n := CharLength(t);
      FirstCharIsWhole(t);
      WholeSuffix(t, n);
      p := k + n;
      assert s[p..] == t[n..];
      CharsEndInTails(t);
      if p <= q {
        assert s[..p] == s[..k] + t[..n];
        SanitizedAfterWellFormed(s[..k], t[..n]);
      } else {
        assert s[q] == t[q - k];
      }
    }
  }

  lemma HeadOfSanitized(s: seq<byte>)
    requires s != []
    ensures Sanitized(s) != []
    ensures s[0] < 0x80 ==> Sanitized(s)[0] == s[0]
    ensures Tail(s[0]) ==> Sanitized(s)[0] == REPLACEMENT[0]
  {
    CharLengthIsSmall(s);
  }
}
