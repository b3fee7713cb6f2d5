/** Byte strings, and how `std::getline` and `find('\n')` cut them into lines. */
module Lines {
  import opened Basics

  type byte = bv8

  const NEWLINE: byte := 10
  const CARRIAGE_RETURN: byte := 13

  /** `std::count` of newlines. */
  function Newlines(s: seq<byte>): (n: nat)
    ensures n <= |s|
  {
    if s == [] then 0 else (if s[0] == NEWLINE then 1 else 0) + Newlines(s[1..])
  }

  /** Index of the first newline, or the length when there is none. */
  function FirstNewline(s: seq<byte>): (i: nat)
    ensures i <= |s|
  {
    if s == [] || s[0] == NEWLINE then 0 else 1 + FirstNewline(s[1..])
  }

  /** The newline-terminated lines, without their newlines. */
  function Complete(s: seq<byte>): (lines: seq<seq<byte>>)
    decreases |s|
  {
    var i := FirstNewline(s);
    if i == |s| then [] else [s[..i]] + Complete(s[i + 1..])
  }

  /** The bytes after the last newline. */
  function Remainder(s: seq<byte>): (r: seq<byte>)
    decreases |s|
  {
    var i := FirstNewline(s);
    if i == |s| then s else Remainder(s[i + 1..])
  }

  /** The lines a `std::getline` loop yields: a final empty segment is dropped, a final
      unterminated non-empty one is not. */
  function Split(s: seq<byte>): (lines: seq<seq<byte>>)
    decreases |s|
  {
    var i := FirstNewline(s);
    if s == [] then [] else if i == |s| then [s] else [s[..i]] + Split(s[i + 1..])
  }

  /** The text that a list of lines is cut from. */
  function Join(lines: seq<seq<byte>>): (s: seq<byte>) {
    if lines == [] then [] else lines[0] + [NEWLINE] + Join(lines[1..])
  }

  /** `FirstNewline` is the one index with no newline before it and a newline (or the end) at it. */
  lemma {:induction false} FirstNewlineIs(s: seq<byte>, i: nat)
    requires i <= |s|
    ensures i == FirstNewline(s) <==> NEWLINE !in s[..i] && (i < |s| ==> s[i] == NEWLINE)
  {
    if s != [] {
      if i > 0 {
        assert s[..i] == [s[0]] + s[1..][..i - 1];
        FirstNewlineIs(s[1..], i - 1);
      }
    }
  }

  lemma FirstNewlineOfConcat(r: seq<byte>, b: seq<byte>)
    requires NEWLINE !in r
    ensures FirstNewline(r + b) == |r| + FirstNewline(b)
  {
    var i := FirstNewline(b);
    FirstNewlineIs(b, i);
    assert (r + b)[..|r| + i] == r + b[..i];
    FirstNewlineIs(r + b, |r| + i);
  }

  lemma {:induction false} RemainderIsSuffix(s: seq<byte>)
    ensures NEWLINE !in Remainder(s) && |Remainder(s)| <= |s|
    ensures Remainder(s) == s[|s| - |Remainder(s)|..]
    decreases |s|
  {
    var i := FirstNewline(s);
    FirstNewlineIs(s, i);
    if i < |s| {
      RemainderIsSuffix(s[i + 1..]);
    } else {
      assert s[..i] == s;
    }
  }

  lemma CompleteStep(s: seq<byte>)
    ensures var i := FirstNewline(s);
      Complete(s) == if i == |s| then [] else [s[..i]] + Complete(s[i + 1..])
  {
    hide FirstNewline, Remainder;
  }

  lemma RemainderStep(s: seq<byte>)
    ensures var i := FirstNewline(s); Remainder(s) == if i == |s| then s else Remainder(s[i + 1..])
  {
    hide FirstNewline, Complete;
  }

  /** One line less: what follows the first newline. */
  lemma AfterFirstNewline(s: seq<byte>)
    ensures var i := FirstNewline(s);
      if i == |s| then Complete(s) == [] && Remainder(s) == s
      else Complete(s) == [s[..i]] + Complete(s[i + 1..]) && Remainder(s) == Remainder(s[i + 1..])
  {
    hide FirstNewline, Complete, Remainder;
    CompleteStep(s);
    RemainderStep(s);
  }

  /** What `std::getline` yields is the complete lines and, when there is one, the unfinished line. */
  lemma {:induction false} SplitIsCompleteAndRemainder(s: seq<byte>)
    ensures Split(s) == Complete(s) + if Remainder(s) == [] then [] else [Remainder(s)]
    decreases |s|
  {
    hide Complete, Remainder;
    AfterFirstNewline(s);
    var i := FirstNewline(s);
    if i < |s| {
      var rest := s[i + 1..];
      SplitIsCompleteAndRemainder(rest);
      Associate([s[..i]], Complete(rest), if Remainder(rest) == [] then [] else [Remainder(rest)]);
    }
  }

  /** Only the unfinished line of `a` influences how `b` is framed after it. */
  lemma {:induction false} FramingOfConcat(a: seq<byte>, b: seq<byte>)
    ensures Complete(a + b) == Complete(a) + Complete(Remainder(a) + b)
    ensures Remainder(a + b) == Remainder(Remainder(a) + b)
    decreases |a|
  {
    var i := FirstNewline(a);
    if i < |a| {
      FirstNewlineIs(a, i);
      assert (a + b)[..i] == a[..i];
      FirstNewlineIs(a + b, i);
      assert (a + b)[i + 1..] == a[i + 1..] + b;
      FramingOfConcat(a[i + 1..], b);
    }
  }

  lemma UnfinishedLine(r: seq<byte>)
    requires NEWLINE !in r
    ensures Complete(r) == [] && Remainder(r) == r
  {
    assert r[..|r|] == r;
    FirstNewlineIs(r, |r|);
  }

  lemma FirstLine(s: seq<byte>)
    requires s != []
    ensures Split(s) != [] && Split(s)[0] == s[..FirstNewline(s)]
    ensures Split(s)[1..] == if FirstNewline(s) < |s| then Split(s[FirstNewline(s) + 1..]) else []
  {
    var i := FirstNewline(s);
    if i < |s| {
      assert Split(s) == [s[..i]] + Split(s[i + 1..]);
      hide Split, FirstNewline;
      HeadAndTail(s[..i], Split(s[i + 1..]));
    } else {
      assert s[..i] == s;
    }
  }

  lemma HeadAndTail<T>(head: T, tail: seq<T>)
    ensures ([head] + tail)[0] == head && ([head] + tail)[1..] == tail
  {
  }

  /** A block boundary inside a text damages only the line it falls in. */
  lemma {:induction false} SplitOfSuffix(a: seq<byte>, b: seq<byte>)
    requires b != []
    ensures Split(b) != []
    ensures Split(a + b) == Complete(a) + [Remainder(a) + Split(b)[0]] + Split(b)[1..]
    decreases |a|
  {
    hide Complete, Remainder, Split, FirstNewline;
    AfterFirstNewline(a);
    var i := FirstNewline(a);
    FirstNewlineIs(a, i);
    if i < |a| {
      var line, rest := a[..i], a[i + 1..];
      assert a + b == line + [NEWLINE] + (rest + b);
      SplitOfLine(line, rest + b);
      SplitOfSuffix(rest, b);
      assert [line] + (Complete(rest) + [Remainder(rest) + Split(b)[0]] + Split(b)[1..])
          == [line] + Complete(rest) + [Remainder(rest) + Split(b)[0]] + Split(b)[1..];
    } else {
      assert a[..i] == a;
      SplitOfUnfinished(a, b);
      assert [] + [a + Split(b)[0]] + Split(b)[1..] == [a + Split(b)[0]] + Split(b)[1..];
    }
  }

  lemma SplitOfUnfinished(r: seq<byte>, b: seq<byte>)
    requires NEWLINE !in r && b != []
    ensures Split(b) != [] && Split(r + b) == [r + Split(b)[0]] + Split(b)[1..]
  {
    hide Split;
    var i := FirstNewline(b);
    FirstNewlineOfConcat(r, b);
    FirstLine(b);
    FirstLine(r + b);
    assert (r + b)[..|r| + i] == r + b[..i];
    if i < |b| {
      assert (r + b)[|r| + i + 1..] == b[i + 1..];
    }
    assert Split(r + b) == [Split(r + b)[0]] + Split(r + b)[1..];
  }

  lemma {:induction false} NewlinesOfConcat(a: seq<byte>, b: seq<byte>)
    ensures Newlines(a + b) == Newlines(a) + Newlines(b)
  {
    if a == [] {
      assert a + b == b;
    } else {
      assert (a + b)[1..] == a[1..] + b;
      NewlinesOfConcat(a[1..], b);
    }
  }

  lemma {:induction false} NewlinesAfterFirst(s: seq<byte>)
    ensures FirstNewline(s) == |s| ==> Newlines(s) == 0
    ensures FirstNewline(s) < |s| ==> Newlines(s) == 1 + Newlines(s[FirstNewline(s) + 1..])
  {
    if s != [] && s[0] != NEWLINE {
      NewlinesAfterFirst(s[1..]);
      var i := FirstNewline(s[1..]);
      if i < |s| - 1 {
        assert s[1..][i + 1..] == s[i + 2..];
      }
    }
  }

  /** There is one complete line for each newline. */
  lemma {:induction false} OneLinePerNewline(s: seq<byte>)
    ensures |Complete(s)| == Newlines(s)
    ensures Newlines(s) <= |Split(s)| <= Newlines(s) + 1
    decreases |s|
  {
    NewlinesAfterFirst(s);
    var i := FirstNewline(s);
    if i < |s| {
      OneLinePerNewline(s[i + 1..]);
    }
  }

  lemma JoinOfCons(line: seq<byte>, lines: seq<seq<byte>>)
    ensures Join([line] + lines) == line + [NEWLINE] + Join(lines)
  {
    assert ([line] + lines)[1..] == lines;
  }

  /** Splitting loses nothing: the lines and the remainder spell the text out again. */
  lemma {:induction false} JoinUndoesSplit(s: seq<byte>)
    ensures Join(Complete(s)) + Remainder(s) == s
    decreases |s|
  {
    hide Complete, Remainder, FirstNewline, Join;
    AfterFirstNewline(s);
    var i := FirstNewline(s);
    FirstNewlineIs(s, i);
    if i < |s| {
      var rest := s[i + 1..];
      JoinUndoesSplit(rest);
      JoinOfCons(s[..i], Complete(rest));
      Associate(s[..i] + [NEWLINE], Join(Complete(rest)), Remainder(rest));
      assert s == s[..i] + [NEWLINE] + rest;
    } else {
      assert [] + s == s;
      JoinOfNone();
    }
  }

  lemma JoinOfNone()
    ensures Join([]) == []
  {
  }

  /** Splitting is cutting off one line at a time. */
  lemma SplitOfLine(line: seq<byte>, rest: seq<byte>)
    requires NEWLINE !in line
    ensures Split(line + [NEWLINE] + rest) == [line] + Split(rest)
    ensures Newlines(line + [NEWLINE] + rest) == 1 + Newlines(rest)
  {
    var s := line + [NEWLINE] + rest;
    assert s[..|line|] == line && s[|line| + 1..] == rest;
    FirstNewlineIs(s, |line|);
    NewlinesAfterFirst(s);
  }

  lemma SplitOfUnterminated(line: seq<byte>)
    requires NEWLINE !in line
    ensures Split(line) == if line == [] then [] else [line]
    ensures Newlines(line) == 0
  {
    assert line[..|line|] == line;
    FirstNewlineIs(line, |line|);
    NewlinesAfterFirst(line);
  }

  lemma OneMore(n: nat, width: nat)
    ensures (n + 1) * width == n * width + width && n * width >= 0
  {
  }

  /** A text is no longer than its lines are many times the longest of them. */
  lemma {:induction false} Pigeonhole(s: seq<byte>, width: nat)
    requires forall k :: 0 <= k < |Split(s)| ==> |Split(s)[k]| <= width
    ensures |s| <= (Newlines(s) + 1) * (width + 1)
    decreases |s|
  {
    hide Split, FirstNewline, Newlines;
    if s != [] {
      var i := FirstNewline(s);
      FirstLine(s);
      NewlinesAfterFirst(s);
      assert |Split(s)[0]| <= width;
      if i < |s| {
        var rest := s[i + 1..];
        assert Split(rest) == Split(s)[1..];
        forall k | 0 <= k < |Split(rest)| ensures |Split(rest)[k]| <= width {
          assert Split(rest)[k] == Split(s)[k + 1];
        }
        Pigeonhole(rest, width);
        hide *;
        OneMore(Newlines(rest) + 1, width + 1);
      }
    }
  }
}
