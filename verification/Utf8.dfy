/** `LogCollector::SanitizeUtf8`, against the UTF-8 grammar of section 4 of RFC 3629. */
module Utf8 {
  import opened Lines

  // ----- the grammar: section 4 of RFC 3629 -----

  /** UTF8-tail = %x80-BF */
  predicate Tail(b: byte) {
    0x80 <= b <= 0xBF
  }

  /** UTF8-2 */
  predicate Two(b0: byte, b1: byte) {
    0xC2 <= b0 <= 0xDF && Tail(b1)
  }

  /** UTF8-3 */
  predicate Three(b0: byte, b1: byte, b2: byte) {
    && Tail(b2)
    && (|| (b0 == 0xE0 && 0xA0 <= b1 <= 0xBF)
        || (0xE1 <= b0 <= 0xEC && Tail(b1))
        || (b0 == 0xED && 0x80 <= b1 <= 0x9F)
        || (0xEE <= b0 <= 0xEF && Tail(b1)))
  }

  /** UTF8-4 */
  predicate Four(b0: byte, b1: byte, b2: byte, b3: byte) {
    && Tail(b2) && Tail(b3)
    && (|| (b0 == 0xF0 && 0x90 <= b1 <= 0xBF)
        || (0xF1 <= b0 <= 0xF3 && Tail(b1))
        || (b0 == 0xF4 && 0x80 <= b1 <= 0x8F))
  }

  /** The length of the UTF8-char that `s` begins with, or 0 when it begins with none. */
  function CharLength(s: seq<byte>): (n: nat)
    ensures n <= |s| && n <= 4
  {
    if |s| >= 1 && s[0] <= 0x7F then 1
    else if |s| >= 2 && Two(s[0], s[1]) then 2
    else if |s| >= 3 && Three(s[0], s[1], s[2]) then 3
    else if |s| >= 4 && Four(s[0], s[1], s[2], s[3]) then 4
    else 0
  }

  /** UTF8-octets = *( UTF8-char ) */
  predicate WellFormed(s: seq<byte>) {
    s == [] || (CharLength(s) > 0 && WellFormed(s[CharLength(s)..]))
  }

  // ----- code points: section 3 of RFC 3629 -----

  type CodePoint = bv32

  predicate Scalar(v: CodePoint) {
    v <= 0x10FFFF && !(0xD800 <= v <= 0xDFFF)
  }

  function Encode(v: CodePoint): (s: seq<byte>)
    requires Scalar(v)
  {
    if v < 0x80 then [v as byte]
    else if v < 0x800 then [0xC0 | ((v >> 6) as byte), Continuation(v)]
    else if v < 0x10000 then [0xE0 | ((v >> 12) as byte), Continuation(v >> 6), Continuation(v)]
    else [0xF0 | ((v >> 18) as byte), Continuation(v >> 12), Continuation(v >> 6), Continuation(v)]
  }

  function Continuation(v: CodePoint): byte {
    0x80 | ((v & 0x3F) as byte)
  }

  /** Shifts in the payload bits of a continuation byte. */
  function Push(v: CodePoint, continuation: byte): CodePoint {
    (v << 6) | ((continuation & 0x3F) as CodePoint)
  }

  function Accumulated(seed: CodePoint, tail: seq<byte>): CodePoint {
    if tail == [] then seed else Push(Accumulated(seed, tail[..|tail| - 1]), tail[|tail| - 1])
  }

  // The masks that classify a lead byte, and the payload bits below each of them.

  predicate LeadsTwo(first: byte) {
    first & 0xE0 == 0xC0
  }

  predicate LeadsThree(first: byte) {
    first & 0xF0 == 0xE0
  }

  predicate LeadsFour(first: byte) {
    first & 0xF8 == 0xF0
  }

  predicate IsContinuation(b: byte) {
    b & 0xC0 == 0x80
  }

  function Low5(first: byte): CodePoint {
    (first & 0x1F) as CodePoint
  }

  function Low4(first: byte): CodePoint {
    (first & 0x0F) as CodePoint
  }

  function Low3(first: byte): CodePoint {
    (first & 0x07) as CodePoint
  }

  function Payload(first: byte): CodePoint {
    if first < 0x80 then first as CodePoint
    else if LeadsTwo(first) then Low5(first)
    else if LeadsThree(first) then Low4(first)
    else Low3(first)
  }

  function Decode(s: seq<byte>): CodePoint
    requires s != []
  {
    Accumulated(Payload(s[0]), s[1..])
  }

  lemma Masks(b: byte)
    ensures LeadsTwo(b) <==> 0xC0 <= b <= 0xDF
    ensures LeadsThree(b) <==> 0xE0 <= b <= 0xEF
    ensures LeadsFour(b) <==> 0xF0 <= b <= 0xF7
    ensures IsContinuation(b) <==> Tail(b)
  {
  }

  // The code points that the shifting loop ends with, for two, three and four bytes.

  function Shifted2(b0: byte, b1: byte): CodePoint {
    Push(Low5(b0), b1)
  }

  function Shifted3(b0: byte, b1: byte, b2: byte): CodePoint {
    Push(Push(Low4(b0), b1), b2)
  }

  function Shifted4(b0: byte, b1: byte, b2: byte, b3: byte): CodePoint {
    Push(Push(Push(Low3(b0), b1), b2), b3)
  }

  lemma NothingPushed(seed: CodePoint)
    ensures Accumulated(seed, []) == seed
  {
  }

  lemma OneMoreByte(seed: CodePoint, tail: seq<byte>, b: byte)
    ensures Accumulated(seed, tail + [b]) == Push(Accumulated(seed, tail), b)
  {
    hide Push;
    assert (tail + [b])[..|tail|] == tail;
  }

  lemma PushNext(seed: CodePoint, s: seq<byte>, offset: nat)
    requires 1 <= offset < |s|
    ensures Accumulated(seed, s[1..offset + 1]) == Push(Accumulated(seed, s[1..offset]), s[offset])
  {
    hide Accumulated, Push;
    assert s[1..offset + 1] == s[1..offset] + [s[offset]];
    OneMoreByte(seed, s[1..offset], s[offset]);
  }

  lemma PayloadBits(b: byte)
    ensures 0xC0 <= b <= 0xDF ==> Payload(b) == Low5(b)
    ensures 0xE0 <= b <= 0xEF ==> Payload(b) == Low4(b)
    ensures 0xF0 <= b <= 0xF7 ==> Payload(b) == Low3(b)
  {
    Masks(b);
    hide LeadsTwo, LeadsThree, LeadsFour, Low5, Low4, Low3;
  }

  lemma DecodeIsShifted(s: seq<byte>)
    requires 1 <= |s| <= 4
    ensures |s| == 1 ==> Decode(s) == Payload(s[0])
    ensures |s| == 2 && 0xC0 <= s[0] <= 0xDF ==> Decode(s) == Shifted2(s[0], s[1])
    ensures |s| == 3 && 0xE0 <= s[0] <= 0xEF ==> Decode(s) == Shifted3(s[0], s[1], s[2])
    ensures |s| == 4 && 0xF0 <= s[0] <= 0xF7 ==> Decode(s) == Shifted4(s[0], s[1], s[2], s[3])
  {
    hide Payload, Push, Accumulated, Low5, Low4, Low3;
    var seed := Payload(s[0]);
    NothingPushed(seed);
    PayloadBits(s[0]);
    if |s| == 1 {
      assert s[1..] == [];
    } else if |s| == 2 {
      OneMoreByte(seed, [], s[1]);
      assert s[1..] == [] + [s[1]];
    } else if |s| == 3 {
      OneMoreByte(seed, [], s[1]);
      OneMoreByte(seed, [] + [s[1]], s[2]);
      assert s[1..] == [] + [s[1]] + [s[2]];
    } else {
      OneMoreByte(seed, [], s[1]);
      OneMoreByte(seed, [] + [s[1]], s[2]);
      OneMoreByte(seed, [] + [s[1]] + [s[2]], s[3]);
      assert s[1..] == [] + [s[1]] + [s[2]] + [s[3]];
    }
  }

  lemma TwoByteTests(b0: byte, b1: byte)
    requires 0xC0 <= b0 <= 0xDF && Tail(b1)
    ensures Two(b0, b1) <==> 0x80 <= Shifted2(b0, b1) && Scalar(Shifted2(b0, b1))
  {
  }

  lemma ThreeByteTests(b0: byte, b1: byte, b2: byte)
    requires 0xE0 <= b0 <= 0xEF && Tail(b1) && Tail(b2)
    ensures Three(b0, b1, b2) <==> 0x800 <= Shifted3(b0, b1, b2) && Scalar(Shifted3(b0, b1, b2))
  {
  }

  lemma FourByteTests(b0: byte, b1: byte, b2: byte, b3: byte)
    requires 0xF0 <= b0 <= 0xF7 && Tail(b1) && Tail(b2) && Tail(b3)
    ensures Four(b0, b1, b2, b3) <==> 0x10000 <= Shifted4(b0, b1, b2, b3) && Scalar(Shifted4(b0, b1, b2, b3))
  {
  }

  /** The sequence length that the lead byte announces, 0 when it is no lead byte. */
  function Announced(first: byte): (length: nat) {
    if first < 0x80 then 1
    else if LeadsTwo(first) then 2
    else if LeadsThree(first) then 3
    else if LeadsFour(first) then 4
    else 0
  }

  function Minimum(length: nat): CodePoint {
    if length == 2 then 0x80 else if length == 3 then 0x800 else if length == 4 then 0x10000 else 0
  }

  /** What the program tests of the first `length` bytes. */
  predicate PassesTests(s: seq<byte>, length: nat)
    requires 2 <= length <= 4
  {
    && length <= |s|
    && (forall k :: 1 <= k < length ==> IsContinuation(s[k]))
    && Minimum(length) <= Decode(s[..length])
    && Scalar(Decode(s[..length]))
  }

  /** The mask, shift, minimum and surrogate tests accept exactly the grammar's characters. */
  lemma TestsAreTheGrammar(s: seq<byte>)
    requires s != []
    ensures Announced(s[0]) == 1 ==> CharLength(s) == 1
    ensures Announced(s[0]) == 0 ==> CharLength(s) == 0
    ensures Announced(s[0]) >= 2
      ==> CharLength(s) == if PassesTests(s, Announced(s[0])) then Announced(s[0]) else 0
  {
    hide LeadsTwo, LeadsThree, LeadsFour, IsContinuation;
    Masks(s[0]);
    var n := Announced(s[0]);
    if n >= 2 && n <= |s| {
      DecodeIsShifted(s[..n]);
      Masks(s[1]);
      if n >= 3 { Masks(s[2]); }
      if n == 4 { Masks(s[3]); }
      hide Shifted2, Shifted3, Shifted4, Decode, Announced;
      if forall k :: 1 <= k < n ==> Tail(s[k]) {
        if n == 2 {
          TwoByteTests(s[0], s[1]);
        } else if n == 3 {
          ThreeByteTests(s[0], s[1], s[2]);
        } else {
          FourByteTests(s[0], s[1], s[2], s[3]);
        }
      }
    }
  }

  // ----- decoding and encoding are inverse -----

  lemma Unshift2(b0: byte, b1: byte)
    requires Two(b0, b1)
    ensures Scalar(Shifted2(b0, b1)) && Encode(Shifted2(b0, b1)) == [b0, b1]
  {
  }

  lemma Unshift3(b0: byte, b1: byte, b2: byte)
    requires 0xE0 <= b0 <= 0xEF && Tail(b1) && Tail(b2)
    ensures Shifted3(b0, b1, b2) < 0x10000
    ensures 0xE0 | ((Shifted3(b0, b1, b2) >> 12) as byte) == b0
    ensures Continuation(Shifted3(b0, b1, b2) >> 6) == b1
    ensures Continuation(Shifted3(b0, b1, b2)) == b2
  {
  }

  lemma Unshift4(b0: byte, b1: byte, b2: byte, b3: byte)
    requires 0xF0 <= b0 <= 0xF7 && Tail(b1) && Tail(b2) && Tail(b3)
    ensures Shifted4(b0, b1, b2, b3) < 0x200000
    ensures 0xF0 | ((Shifted4(b0, b1, b2, b3) >> 18) as byte) == b0
  {
  }

  lemma Unshift4Tail(b0: byte, b1: byte, b2: byte, b3: byte)
    requires 0xF0 <= b0 <= 0xF7 && Tail(b1) && Tail(b2) && Tail(b3)
    ensures Continuation(Shifted4(b0, b1, b2, b3) >> 12) == b1
    ensures Continuation(Shifted4(b0, b1, b2, b3) >> 6) == b2
    ensures Continuation(Shifted4(b0, b1, b2, b3)) == b3
  {
  }

  lemma EncodeBytes(v: CodePoint)
    requires Scalar(v)
    ensures 0x800 <= v < 0x10000 ==> Encode(v) == [0xE0 | ((v >> 12) as byte), Continuation(v >> 6), Continuation(v)]
    ensures 0x10000 <= v
      ==> Encode(v) == [0xF0 | ((v >> 18) as byte), Continuation(v >> 12), Continuation(v >> 6), Continuation(v)]
  {
    hide Continuation;
  }

  lemma EncodeShifted3(b0: byte, b1: byte, b2: byte)
    requires Three(b0, b1, b2)
    ensures Scalar(Shifted3(b0, b1, b2)) && Encode(Shifted3(b0, b1, b2)) == [b0, b1, b2]
  {
    hide Shifted3, Continuation, Encode;
    ThreeByteTests(b0, b1, b2);
    Unshift3(b0, b1, b2);
    EncodeBytes(Shifted3(b0, b1, b2));
  }

  lemma EncodeShifted4(b0: byte, b1: byte, b2: byte, b3: byte)
    requires Four(b0, b1, b2, b3)
    ensures Scalar(Shifted4(b0, b1, b2, b3)) && Encode(Shifted4(b0, b1, b2, b3)) == [b0, b1, b2, b3]
  {
    hide Shifted4, Continuation, Encode;
    FourByteTests(b0, b1, b2, b3);
    Unshift4(b0, b1, b2, b3);
    Unshift4Tail(b0, b1, b2, b3);
    EncodeBytes(Shifted4(b0, b1, b2, b3));
  }

  /** Re-encoding the decoded code point of a UTF8-char gives back its bytes. */
  lemma EncodeUndoesDecode(s: seq<byte>)
    requires s != [] && CharLength(s) == |s|
    ensures Scalar(Decode(s)) && Encode(Decode(s)) == s
  {
    hide Decode, Shifted2, Shifted3, Shifted4;
    DecodeIsShifted(s);
    if |s| >= 2 {
      hide Encode, Scalar;
      if |s| == 2 {
        Unshift2(s[0], s[1]);
      } else if |s| == 3 {
        EncodeShifted3(s[0], s[1], s[2]);
      } else {
        EncodeShifted4(s[0], s[1], s[2], s[3]);
      }
    }
  }

  lemma ContinuationBits(v: CodePoint)
    ensures Tail(Continuation(v))
    ensures (Continuation(v) & 0x3F) as CodePoint == v & 0x3F
  {
  }

  lemma LeadBits(v: CodePoint)
    ensures v < 0x20 ==> 0xC0 <= 0xC0 | (v as byte) <= 0xDF && ((0xC0 | (v as byte)) & 0x1F) as CodePoint == v
    ensures v < 0x10 ==> 0xE0 <= 0xE0 | (v as byte) <= 0xEF && ((0xE0 | (v as byte)) & 0x0F) as CodePoint == v
    ensures v < 0x08 ==> 0xF0 <= 0xF0 | (v as byte) <= 0xF7 && ((0xF0 | (v as byte)) & 0x07) as CodePoint == v
  {
  }

  lemma Regroup2(v: CodePoint)
    requires 0x80 <= v < 0x800
    ensures Shifted2(0xC0 | ((v >> 6) as byte), Continuation(v)) == v
  {
    LeadBits(v >> 6);
    ContinuationBits(v);
    hide Continuation;
  }

  lemma Regroup3(v: CodePoint)
    requires 0x800 <= v < 0x10000
    ensures Shifted3(0xE0 | ((v >> 12) as byte), Continuation(v >> 6), Continuation(v)) == v
  {
    LeadBits(v >> 12);
    ContinuationBits(v >> 6);
    ContinuationBits(v);
    hide Continuation;
  }

  lemma Regroup4(v: CodePoint)
    requires 0x10000 <= v <= 0x10FFFF
    ensures Shifted4(0xF0 | ((v >> 18) as byte), Continuation(v >> 12), Continuation(v >> 6), Continuation(v)) == v
  {
    LeadBits(v >> 18);
    ContinuationBits(v >> 12);
    ContinuationBits(v >> 6);
    ContinuationBits(v);
    hide Continuation;
  }

  /** Every scalar value is encoded as one UTF8-char, and decodes to itself. */
  lemma DecodeUndoesEncode(v: CodePoint)
    requires Scalar(v)
    ensures CharLength(Encode(v)) == |Encode(v)| > 0
    ensures Decode(Encode(v)) == v
  {
    var s := Encode(v);
    DecodeIsShifted(s);
    hide Decode, Shifted2, Shifted3, Shifted4, Continuation;
    if 0x80 <= v {
      ContinuationBits(v);
      ContinuationBits(v >> 6);
      ContinuationBits(v >> 12);
      LeadBits(v >> 6);
      LeadBits(v >> 12);
      LeadBits(v >> 18);
      if v < 0x800 {
        Regroup2(v);
        TwoByteTests(s[0], s[1]);
      } else if v < 0x10000 {
        Regroup3(v);
        ThreeByteTests(s[0], s[1], s[2]);
      } else {
        Regroup4(v);
        FourByteTests(s[0], s[1], s[2], s[3]);
      }
    }
  }

  // ----- the sanitiser -----

  /** U+FFFD */
  const REPLACEMENT: seq<byte> := [0xEF, 0xBF, 0xBD]

  /** Every byte that begins no UTF8-char becomes U+FFFD; every UTF8-char stays as it is. */
  function Sanitized(s: seq<byte>): (r: seq<byte>) {
    if s == [] then []
    else if CharLength(s) == 0 then REPLACEMENT + Sanitized(s[1..])
    else s[..CharLength(s)] + Sanitized(s[CharLength(s)..])
  }

  lemma LeadPayload(s: seq<byte>, length: nat)
    requires s != [] && Announced(s[0]) == length >= 2
    ensures length > |s| ==> !PassesTests(s, length)
    ensures Accumulated(Payload(s[0]), s[1..1]) == Payload(s[0])
    ensures length == 2 ==> Payload(s[0]) == Low5(s[0])
    ensures length == 3 ==> Payload(s[0]) == Low4(s[0])
    ensures length == 4 ==> Payload(s[0]) == Low3(s[0])
  {
    hide Low5, Low4, Low3;
    assert s[1..1] == [];
    NothingPushed(Payload(s[0]));
  }

  lemma BadContinuation(s: seq<byte>, length: nat, k: nat)
    requires 2 <= length <= 4 && 1 <= k < length <= |s|
    requires !IsContinuation(s[k])
    ensures !PassesTests(s, length)
  {
  }

  lemma GoodContinuations(s: seq<byte>, length: nat)
    requires 2 <= length <= 4 && length <= |s|
    requires forall k :: 1 <= k < length ==> IsContinuation(s[k])
    ensures var v := Accumulated(Payload(s[0]), s[1..length]);
      PassesTests(s, length) <==> Minimum(length) <= v && Scalar(v)
  {
    hide Accumulated, Payload, Push, Scalar, IsContinuation, Minimum;
    assert s[..length][1..] == s[1..length];
  }

  /** One round of the sanitiser's loop: how many bytes at `index` it copies, 0 when it rejects the first. */
  method AcceptedLength(input: seq<byte>, index: nat) returns (length: nat)
    requires index < |input|
    ensures length == CharLength(input[index..])
  {
    hide CharLength, Accumulated, Payload, Push, PassesTests, IsContinuation, Tail,
      LeadsTwo, LeadsThree, LeadsFour, Low5, Low4, Low3;
    ghost var rest := input[index..];
    TestsAreTheGrammar(rest);
    var first := input[index];
    if first < 0x80 {
      return 1;
    }

    var codePoint: CodePoint, minimum: CodePoint;
    if LeadsTwo(first) {
      length, codePoint, minimum := 2, Low5(first), 0x80;
    } else if LeadsThree(first) {
      length, codePoint, minimum := 3, Low4(first), 0x800;
    } else if LeadsFour(first) {
      length, codePoint, minimum := 4, Low3(first), 0x10000;
    } else {
      return 0;
    }

    LeadPayload(rest, length);
    var valid := index + length <= |input|;
    var offset := 1;
    while valid && offset < length
      invariant 1 <= offset <= length
      invariant valid ==> length <= |rest|
      invariant valid ==> forall k :: 1 <= k < offset ==> IsContinuation(rest[k])
      invariant valid ==> codePoint == Accumulated(Payload(first), rest[1..offset])
      invariant !valid ==> !PassesTests(rest, length)
    {
      var continuation := input[index + offset];
      if !IsContinuation(continuation) {
        BadContinuation(rest, length, offset);
        valid := false;
      } else {
        PushNext(Payload(first), rest, offset);
        codePoint := Push(codePoint, continuation);
      }
      offset := offset + 1;
    }
    if valid {
      GoodContinuations(rest, length);
    }
    valid := valid && minimum <= codePoint && codePoint <= 0x10FFFF && !(0xD800 <= codePoint <= 0xDFFF);
    if !valid {
      return 0;
    }
  }

  lemma SanitizedFrom(s: seq<byte>, index: nat)
    requires index <= |s|
    ensures index == |s| ==> Sanitized(s[index..]) == []
    ensures index < |s| && CharLength(s[index..]) == 0
      ==> Sanitized(s[index..]) == REPLACEMENT + Sanitized(s[index + 1..])
    ensures index < |s| && CharLength(s[index..]) > 0
      ==> var next := index + CharLength(s[index..]);
          Sanitized(s[index..]) == s[index..next] + Sanitized(s[next..])
  {
    hide CharLength;
    if index < |s| {
      var n := CharLength(s[index..]);
      assert s[index..][1..] == s[index + 1..];
      assert s[index..][..n] == s[index..index + n];
      assert s[index..][n..] == s[index + n..];
    }
  }

  method SanitizeUtf8(input: seq<byte>) returns (output: seq<byte>)
    ensures output == Sanitized(input)
  {
    hide CharLength, Sanitized;
    output := [];
    var index := 0;
    assert input[0..] == input;
    while index < |input|
      invariant 0 <= index <= |input|
      invariant Sanitized(input) == output + Sanitized(input[index..])
    {
      SanitizedFrom(input, index);
      var length := AcceptedLength(input, index);
      if length == 0 {
        output := output + REPLACEMENT;
        index := index + 1;
      } else {
        output := output + input[index..index + length];
        index := index + length;
      }
    }
    SanitizedFrom(input, index);
  }
}
