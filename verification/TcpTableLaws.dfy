/** Parsing undoes the kernel's printing of TCP sockets. */
module TcpTableLaws {
  import opened Basics
  import opened Digits
  import opened Text
  import opened TcpTable

  // ----- how the kernel prints -----

  /** `%0<width>X` of a number that fits. */
  function FixedHex(n: nat, width: nat): (s: string)
    ensures |s| == width
  {
    if width == 0 then [] else FixedHex(n / 16, width - 1) + [DIGITS[n % 16]]
  }

  /** Four address bytes in memory order, read as one little-endian 32-bit word. */
  function LittleEndian(b0: octet, b1: octet, b2: octet, b3: octet): nat {
    b0 + 256 * b1 + 65536 * b2 + 16777216 * b3
  }

  function PrintWords(bytes: seq<octet>): (s: string)
    requires |bytes| % 4 == 0
    ensures |s| == 2 * |bytes|
  {
    if bytes == [] then []
    else FixedHex(LittleEndian(bytes[0], bytes[1], bytes[2], bytes[3]), 8) + PrintWords(bytes[4..])
  }

  function PrintEndpoint(bytes: seq<octet>, port: nat): string
    requires |bytes| % 4 == 0
  {
    PrintWords(bytes) + ":" + FixedHex(port, 4)
  }

  // ----- hexadecimal digits -----

  lemma {:induction false} FixedHexIsRead(n: nat, width: nat, limit: nat)
    requires n < limit && limit == Power16(width)
    ensures AllDigits(FixedHex(n, width), 16) && Value(FixedHex(n, width), 16) == n
  {
    hide DigitValue, Value;
    if width == 0 {
      ValueOfNothing(16);
    } else {
      FixedHexIsRead(n / 16, width - 1, Power16(width - 1));
      DigitOf(n % 16);
      ValueOfSnoc(FixedHex(n / 16, width - 1), DIGITS[n % 16], 16);
    }
  }

  function Power16(width: nat): nat {
    if width == 0 then 1 else 16 * Power16(width - 1)
  }

  /** Printing a number is printing its upper bytes and then its last byte. */
  lemma FixedHexSplits(high: nat, low: octet, width: nat)
    ensures FixedHex(high * 256 + low, width + 2) == FixedHex(high, width) + FixedHex(low, 2)
  {
    hide FixedHex;
    TwoNibbles(high, low);
    TwoDigits(low);
    TwoMoreDigits(high * 256 + low, width);
  }

  lemma TwoNibbles(high: nat, low: octet)
    ensures var n := high * 256 + low;
      n % 16 == low % 16 && n / 16 % 16 == low / 16 && n / 16 / 16 == high
  {
    var n := high * 256 + low;
    assert n == (high * 16 + low / 16) * 16 + low % 16;
    assert n / 16 == high * 16 + low / 16;
  }

  lemma TwoDigits(low: octet)
    ensures FixedHex(low, 2) == [DIGITS[low / 16], DIGITS[low % 16]]
  {
    assert low / 16 % 16 == low / 16;
    assert FixedHex(low / 16 / 16, 0) == [];
    assert FixedHex(low / 16, 1) == [DIGITS[low / 16]];
  }

  lemma TwoMoreDigits(n: nat, width: nat)
    ensures FixedHex(n, width + 2) == FixedHex(n / 16 / 16, width) + [DIGITS[n / 16 % 16], DIGITS[n % 16]]
  {
    assert FixedHex(n / 16, width + 1) == FixedHex(n / 16 / 16, width) + [DIGITS[n / 16 % 16]];
  }

  /** A printed word shows its bytes in reverse order, two digits each. */
  lemma WordIsReversed(b0: octet, b1: octet, b2: octet, b3: octet)
    ensures FixedHex(LittleEndian(b0, b1, b2, b3), 8) ==
      FixedHex(b3, 2) + FixedHex(b2, 2) + FixedHex(b1, 2) + FixedHex(b0, 2)
  {
    hide FixedHex, LittleEndian;
    Horner(b0, b1, b2, b3);
    var n1 := b3 * 256 + b2;
    var n2 := n1 * 256 + b1;
    FixedHexSplits(n2, b0, 6);
    FixedHexSplits(n1, b1, 4);
    FixedHexSplits(b3, b2, 2);
  }

  lemma Horner(b0: octet, b1: octet, b2: octet, b3: octet)
    ensures LittleEndian(b0, b1, b2, b3) == ((b3 * 256 + b2) * 256 + b1) * 256 + b0
  {
  }

  lemma OctetIsRead(b: octet)
    ensures ParseUnsigned(FixedHex(b, 2), 16) == Some(b as nat)
  {
    assert Power16(1) == 16 && Power16(2) == 256;
    FixedHexIsRead(b, 2, 256);
  }

  lemma PortIsRead(port: nat)
    requires port <= 65535
    ensures ParseUnsigned(FixedHex(port, 4), 16) == Some(port)
  {
    assert Power16(2) == 256 && Power16(4) == 65536;
    FixedHexIsRead(port, 4, 65536);
  }

  // ----- addresses -----

  /** Byte `i` stands where `ParseEndpoint` looks for it. */
  lemma {:induction false} ByteIsAtSource(bytes: seq<octet>, i: nat)
    requires |bytes| % 4 == 0 && i < |bytes|
    ensures Source(i) + 2 <= 2 * |bytes|
    ensures PrintWords(bytes)[Source(i)..Source(i) + 2] == FixedHex(bytes[i], 2)
    decreases |bytes|
  {
    var word := FixedHex(LittleEndian(bytes[0], bytes[1], bytes[2], bytes[3]), 8);
    assert PrintWords(bytes) == word + PrintWords(bytes[4..]);
    hide FixedHex, PrintWords, LittleEndian;
    if i < 4 {
      SourceInFirstWord(i);
      WordIsReversed(bytes[0], bytes[1], bytes[2], bytes[3]);
      PairOfFour(FixedHex(bytes[3], 2), FixedHex(bytes[2], 2), FixedHex(bytes[1], 2), FixedHex(bytes[0], 2), i);
      hide Source;
      SliceOfFront(word, PrintWords(bytes[4..]), Source(i));
    } else {
      SourceOfNextWord(i);
      ByteIsAtSource(bytes[4..], i - 4);
      hide Source;
      SliceOfBack(word, PrintWords(bytes[4..]), Source(i - 4));
    }
  }

  lemma SourceInFirstWord(i: nat)
    requires i < 4
    ensures Source(i) == (3 - i) * 2
  {
  }

  lemma PairOfFour(p: string, q: string, r: string, s: string, i: nat)
    requires |p| == |q| == |r| == |s| == 2 && i < 4
    ensures (p + q + r + s)[(3 - i) * 2..(3 - i) * 2 + 2] ==
      if i == 3 then p else if i == 2 then q else if i == 1 then r else s
  {
  }

  lemma SliceOfFront(a: string, b: string, from: nat)
    requires from + 2 <= |a|
    ensures (a + b)[from..from + 2] == a[from..from + 2]
  {
  }

  lemma SliceOfBack(a: string, b: string, from: nat)
    requires from + 2 <= |b|
    ensures (a + b)[|a| + from..|a| + from + 2] == b[from..from + 2]
  {
  }

  lemma SourceOfNextWord(i: nat)
    requires i >= 4
    ensures Source(i) == Source(i - 4) + 8
  {
  }

  lemma {:induction false} NoColon(bytes: seq<octet>)
    requires |bytes| % 4 == 0
    ensures ':' !in PrintWords(bytes)
    decreases |bytes|
  {
    if bytes != [] {
      NoColon(bytes[4..]);
      FixedHexHasNo(LittleEndian(bytes[0], bytes[1], bytes[2], bytes[3]), 8, ':');
    }
  }

  lemma {:induction false} FixedHexHasNo(n: nat, width: nat, c: char)
    requires DigitValue(c) == 16
    ensures c !in FixedHex(n, width)
  {
    if width > 0 {
      FixedHexHasNo(n / 16, width - 1, c);
      DigitOf(n % 16);
    }
  }

  /** For every IPv4 and IPv6 address and every port. */
  lemma EndpointIsRead(bytes: seq<octet>, port: nat, ipv6: bool)
    requires |bytes| == (if ipv6 then 16 else 4) && port <= 65535
    ensures ParsedEndpoint(PrintEndpoint(bytes, port), ipv6) ==
      Some(Endpoint(bytes + seq(16 - |bytes|, _ => 0), port))
  {
    hide FixedHex, PrintWords, ParseUnsigned, Source;
    var text, hex := PrintEndpoint(bytes, port), PrintWords(bytes);
    NoColon(bytes);
    assert text[..|hex|] == hex;
    FirstIs(text, ':', |hex|);
    assert text[|hex| + 1..] == FixedHex(port, 4);
    PortIsRead(port);
    SourcesInRange(WordCount(ipv6));
    forall i | 0 <= i < |bytes| ensures ByteAt(hex, i) == Some(bytes[i] as nat) {
      ByteIsAtSource(bytes, i);
      OctetIsRead(bytes[i]);
    }
    assert BytesParse(hex, |bytes|);
    assert AddressBytes(hex, |bytes|) == bytes + seq(16 - |bytes|, _ => 0);
  }

  // ----- which endpoints are accepted -----

  predicate IsHex(s: string) {
    forall k :: 0 <= k < |s| ==> '0' <= s[k] <= '9' || 'a' <= s[k] <= 'f' || 'A' <= s[k] <= 'F'
  }

  lemma HexIsDigits(s: string)
    ensures IsHex(s) <==> AllDigits(s, 16)
  {
  }

  /** Digit `j` of the address belongs to the byte whose two digits stand around it. */
  function Holder(j: nat): (i: nat)
    ensures Source(i) <= j < Source(i) + 2
    ensures forall words: nat :: j < 8 * words ==> i < 4 * words
  {
    j / 8 * 4 + (3 - j % 8 / 2)
  }

  lemma PairIsDigits(hex: string, i: nat)
    requires Source(i) + 2 <= |hex|
    ensures ByteAt(hex, i).Some? <==> DigitValue(hex[Source(i)]) < 16 && DigitValue(hex[Source(i) + 1]) < 16
  {
    hide Source;
    var pair := hex[Source(i)..Source(i) + 2];
    assert pair == [] + [pair[0]] + [pair[1]];
    ValueOfNothing(16);
    if AllDigits(pair, 16) {
      ValueOfSnoc([], pair[0], 16);
      ValueOfSnoc([] + [pair[0]], pair[1], 16);
    }
    hide Value;
    assert AllDigits(pair, 16) <==> DigitValue(pair[0]) < 16 && DigitValue(pair[1]) < 16;
  }

  lemma BytesParseExactlyWhen(hex: string, words: nat)
    requires |hex| == 8 * words
    ensures forall i :: 0 <= i < 4 * words ==> Source(i) + 2 <= |hex|
    ensures BytesParse(hex, 4 * words) <==> IsHex(hex)
  {
    hide Source, ByteAt;
    SourcesInRange(words);
    HexIsDigits(hex);
    if BytesParse(hex, 4 * words) {
      forall j | 0 <= j < |hex| ensures DigitValue(hex[j]) < 16 {
        var i := Holder(j);
        assert ByteAt(hex, i).Some?;
        PairIsDigits(hex, i);
      }
    }
    if IsHex(hex) {
      forall i | 0 <= i < 4 * words ensures ByteAt(hex, i).Some? {
        PairIsDigits(hex, i);
      }
    }
  }

  ghost predicate WritesEndpoint(text: string, ipv6: bool) {
    exists hex, port ::
      && text == hex + ":" + port
      && |hex| == (if ipv6 then 32 else 8) && IsHex(hex)
      && port != "" && IsHex(port) && AllDigits(port, 16) && Value(port, 16) <= 65535
  }

  /** Accepted are 8 or 32 hexadecimal digits, a colon, and a port of any number of digits up to 65535. */
  lemma EndpointAcceptedExactlyWhen(text: string, ipv6: bool)
    ensures ParsedEndpoint(text, ipv6).Some? <==> WritesEndpoint(text, ipv6)
  {
    hide Value, BytesParse, AddressBytes, Source, IsHex, First;
    SourcesInRange(WordCount(ipv6));
    if ParsedEndpoint(text, ipv6).Some? {
      var separator := First(text, ':');
      var hex, port := text[..separator], text[separator + 1..];
      assert text == hex + ":" + port;
      HexIsDigits(port);
      BytesParseExactlyWhen(hex, WordCount(ipv6));
    }
    if WritesEndpoint(text, ipv6) {
      var hex, port :|
        && text == hex + ":" + port
        && |hex| == (if ipv6 then 32 else 8) && IsHex(hex)
        && port != "" && IsHex(port) && AllDigits(port, 16) && Value(port, 16) <= 65535;
      HexHasNoColon(hex);
      assert text[..|hex|] == hex;
      FirstIs(text, ':', |hex|);
      assert text[|hex| + 1..] == port;
      BytesParseExactlyWhen(hex, WordCount(ipv6));
    }
  }

  lemma HexHasNoColon(hex: string)
    requires IsHex(hex)
    ensures ':' !in hex
  {
  }

  /** The same digits, where letters may differ in case. */
  predicate SameDigits(a: string, b: string) {
    && |a| == |b|
    && forall k :: 0 <= k < |a| ==> DigitValue(a[k]) == DigitValue(b[k]) && (a[k] == ':' <==> b[k] == ':')
  }

  lemma {:induction false} SameValue(a: string, b: string, base: nat)
    requires (base == 10 || base == 16) && |a| == |b|
    requires forall k :: 0 <= k < |a| ==> DigitValue(a[k]) == DigitValue(b[k])
    ensures AllDigits(a, base) <==> AllDigits(b, base)
    ensures AllDigits(a, base) ==> Value(a, base) == Value(b, base)
  {
    if a != [] && AllDigits(a, base) {
      SameValue(a[..|a| - 1], b[..|b| - 1], base);
    }
  }

  lemma SameUnsigned(a: string, b: string)
    requires |a| == |b| && forall k :: 0 <= k < |a| ==> DigitValue(a[k]) == DigitValue(b[k])
    ensures ParseUnsigned(a, 16) == ParseUnsigned(b, 16)
  {
    hide Value, DigitValue;
    SameValue(a, b, 16);
  }

  /** An endpoint is read alike in upper and lower case. */
  lemma CaseDoesNotMatter(a: string, b: string, ipv6: bool)
    requires |a| == |b|
    requires forall k :: 0 <= k < |a| ==> a[k] == b[k] || ('A' <= b[k] <= 'F' && a[k] as int == b[k] as int + 32)
    ensures ParsedEndpoint(a, ipv6) == ParsedEndpoint(b, ipv6)
  {
    hide First, ParseUnsigned, Source, Value;
    assert SameDigits(a, b);
    hide DigitValue;
    var separator := First(b, ':');
    FirstIs(b, ':', separator);
    assert forall k :: 0 <= k < separator ==> b[..separator][k] != ':';
    assert ':' !in a[..separator];
    FirstIs(a, ':', separator);
    if separator < |b| {
      SameUnsigned(a[separator + 1..], b[separator + 1..]);
      var x, y, count := a[..separator], b[..separator], 4 * WordCount(ipv6);
      SourcesInRange(WordCount(ipv6));
      if |x| == 2 * count {
        forall i | 0 <= i < count ensures ByteAt(x, i) == ByteAt(y, i) {
          SameUnsigned(x[Source(i)..Source(i) + 2], y[Source(i)..Source(i) + 2]);
        }
        hide ByteAt;
        assert BytesParse(x, count) == BytesParse(y, count);
        if BytesParse(x, count) {
          assert AddressBytes(x, count) == AddressBytes(y, count);
        }
      }
    }
  }

  // ----- whole lines -----

  const NAMES: seq<string> := [
    "ESTABLISHED", "SYN_SENT", "SYN_RECV", "FIN_WAIT1", "FIN_WAIT2", "TIME_WAIT", "CLOSE", "CLOSE_WAIT",
    "LAST_ACK", "LISTEN", "CLOSING", "NEW_SYN_RECV"]

  lemma ListedStates(key: string)
    requires key in STATE_NAMES
    ensures |key| == 2 && DigitValue(key[0]) == 0 && 1 <= DigitValue(key[1]) <= 12
    ensures STATE_NAMES[key] == NAMES[DigitValue(key[1]) - 1]
  {
  }

  lemma StatesAreListed(n: nat)
    requires 1 <= n <= 12
    ensures ['0', DIGITS[n]] in STATE_NAMES
  {
    assert ['0', DIGITS[n]] in {"01", "02", "03", "04", "05", "06", "07", "08", "09", "0A", "0B", "0C"};
  }

  /** The names of the kernel's states 1 to 12, which it prints as two digits; any other text stays visible. */
  lemma StatesAreNamed(state: octet)
    ensures TcpStateName(FixedHex(state, 2)) ==
      if 1 <= state <= 12 then NAMES[state - 1] else "UNKNOWN(" + FixedHex(state, 2) + ")"
  {
    TwoDigits(state);
    var text := FixedHex(state, 2);
    DigitOf(state / 16);
    DigitOf(state % 16);
    hide FixedHex, DigitValue;
    if text in STATE_NAMES {
      ListedStates(text);
    }
    if 1 <= state <= 12 {
      StatesAreListed(state);
      assert text == ['0', DIGITS[state]];
    }
  }

  /** A word and the white space before it. */
  datatype Padded = Padded(gap: string, word: string)

  predicate Laid(fields: seq<Padded>) {
    forall k :: 0 <= k < |fields| ==>
      IsWord(fields[k].word) && IsBlank(fields[k].gap) && (k > 0 ==> fields[k].gap != [])
  }

  function Layout(fields: seq<Padded>, trailing: string): (s: string) {
    if fields == [] then trailing else fields[0].gap + fields[0].word + Layout(fields[1..], trailing)
  }

  function WordsOf(fields: seq<Padded>): (words: seq<string>)
    ensures |words| == |fields|
  {
    if fields == [] then [] else [fields[0].word] + WordsOf(fields[1..])
  }

  /** Splitting at white space recovers the words, however they are padded. */
  lemma {:induction false} WordsOfLayout(fields: seq<Padded>, trailing: string)
    requires Laid(fields) && IsBlank(trailing)
    ensures Words(Layout(fields, trailing)) == WordsOf(fields)
    ensures fields != [] && fields[0].gap != [] ==> Layout(fields, trailing)[0] == fields[0].gap[0]
  {
    if fields == [] {
      SkipBlank(trailing, []);
      assert trailing + [] == trailing;
    } else {
      var f, rest := fields[0], Layout(fields[1..], trailing);
      assert Laid(fields[1..]) && IsWord(f.word) && IsBlank(f.gap);
      WordsOfLayout(fields[1..], trailing);
      assert rest == [] || Separates(rest[0]) by {
        if fields[1..] != [] {
          assert fields[1..][0] == fields[1];
        }
      }
      hide Words, Layout;
      WordLengthOfConcat(f.word, rest);
      SkipBlank(f.gap, f.word + rest);
      assert f.gap + f.word + rest == f.gap + (f.word + rest);
      WordIsExtracted(f, rest);
      WordsStep(fields, trailing);
    }
  }

  lemma WordIsExtracted(f: Padded, rest: string)
    requires IsWord(f.word)
    requires WordLength(f.word + rest) == |f.word|
    requires SkipSpace(f.gap + f.word + rest) == SkipSpace(f.word + rest)
    ensures ExtractWord(f.gap + f.word + rest) == Some((f.word, rest))
  {
    SpaceSeparates(f.word[0]);
    assert SkipSpace(f.word + rest) == f.word + rest;
  }

  lemma WordsStep(fields: seq<Padded>, trailing: string)
    requires fields != []
    requires var rest := Layout(fields[1..], trailing);
      && ExtractWord(fields[0].gap + fields[0].word + rest) == Some((fields[0].word, rest))
    ensures Words(Layout(fields, trailing)) == [fields[0].word] + Words(Layout(fields[1..], trailing))
    ensures fields[0].gap != [] ==> Layout(fields, trailing)[0] == fields[0].gap[0]
  {
    hide ExtractWord;
  }

  lemma {:induction false} WordAt(fields: seq<Padded>, k: nat)
    requires k < |fields|
    ensures |WordsOf(fields)| == |fields| && WordsOf(fields)[k] == fields[k].word
  {
    if |fields| == 1 {
      assert fields[1..] == [];
    } else {
      WordAt(fields[1..], if k == 0 then 0 else k - 1);
    }
  }

  /** Every socket line is read back: both endpoints, the state's name and the inode, for any padding and any
      further fields. */
  lemma LineIsRead(
    fields: seq<Padded>, trailing: string, ipv6: bool,
    local: seq<octet>, localPort: nat, remote: seq<octet>, remotePort: nat, state: octet, inode: nat)
    requires |fields| >= 10
    requires Laid(fields) && IsBlank(trailing)
    requires |local| == |remote| == (if ipv6 then 16 else 4)
    requires localPort <= 65535 && remotePort <= 65535 && inode < WORD
    requires fields[1].word == PrintEndpoint(local, localPort)
    requires fields[2].word == PrintEndpoint(remote, remotePort)
    requires fields[3].word == FixedHex(state, 2)
    requires fields[9].word == Decimal(inode)
    ensures ParsedFields(Words(Layout(fields, trailing)), ipv6) ==
      Success(TcpConnection(
        if ipv6 then "tcp6" else "tcp4",
        Endpoint(local + seq(16 - |local|, _ => 0), localPort),
        Endpoint(remote + seq(16 - |remote|, _ => 0), remotePort),
        if 1 <= state <= 12 then NAMES[state - 1] else "UNKNOWN(" + FixedHex(state, 2) + ")",
        inode))
  {
    hide Words, Layout, WordsOf, PrintEndpoint, ParsedEndpoint, TcpStateName, Laid, IsBlank, Value, Print, FixedHex;
    WordsOfLayout(fields, trailing);
    WordAt(fields, 1);
    WordAt(fields, 2);
    WordAt(fields, 3);
    WordAt(fields, 9);
    EndpointIsRead(local, localPort, ipv6);
    EndpointIsRead(remote, remotePort, ipv6);
    StatesAreNamed(state);
    ValueUndoesPrint(inode, 10);
  }

  predicate IsInode(text: string) {
    text != "" && AllDigits(text, 10) && Value(text, 10) < 0x1_0000_0000_0000_0000
  }

  /** Which lines are refused, and how: fewer than ten fields, then an endpoint, then the inode. */
  lemma LineRefusedExactlyWhen(fields: seq<Padded>, trailing: string, ipv6: bool)
    requires Laid(fields) && IsBlank(trailing)
    ensures var r := ParsedFields(Words(Layout(fields, trailing)), ipv6);
      if |fields| < 10 then r == Failure(NotEnoughFields)
      else if !WritesEndpoint(fields[1].word, ipv6) || !WritesEndpoint(fields[2].word, ipv6) then
        r == Failure(InvalidEndpoint)
      else if !IsInode(fields[9].word) then r == Failure(InvalidInode)
      else r.Success?
  {
    hide Words, Layout, WordsOf, ParsedEndpoint, WritesEndpoint, TcpStateName, Laid, IsBlank, Value;
    WordsOfLayout(fields, trailing);
    if |fields| >= 10 {
      WordAt(fields, 1);
      WordAt(fields, 2);
      WordAt(fields, 3);
      WordAt(fields, 9);
      EndpointAcceptedExactlyWhen(fields[1].word, ipv6);
      EndpointAcceptedExactlyWhen(fields[2].word, ipv6);
    }
  }
}
