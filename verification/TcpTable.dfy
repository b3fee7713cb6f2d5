/** `NetworkCollector::ParseTcpLine`: one line of /proc/net/tcp or /proc/net/tcp6. */
module TcpTable {
  import opened Basics
  import opened Digits
  import opened Text

  type octet = x: int | 0 <= x < 256

  datatype Endpoint = Endpoint(bytes: seq<octet>, port: nat)

  datatype TcpError = NotEnoughFields | InvalidEndpoint | InvalidInode

  datatype TcpConnection = TcpConnection(
    protocol: string, local: Endpoint, remote: Endpoint, state: string, inode: nat)

  datatype Result = Success(connection: TcpConnection) | Failure(error: TcpError)

  // ----- numbers -----

  /** `std::from_chars`: the value, when it fits, and how many characters were taken. */
  function FromChars(text: string, base: nat): (r: (Option<nat>, nat))
    requires base == 10 || base == 16
  {
    var n := DigitRun(text, base);
    (if n == 0 || Value(text[..n], base) >= WORD then None else Some(Value(text[..n], base)), n)
  }

  lemma {:induction false} DigitRunIsAll(text: string, base: nat)
    ensures DigitRun(text, base) == |text| <==> AllDigits(text, base)
  {
    if text != [] {
      DigitRunIsAll(text[1..], base);
      assert AllDigits(text, base) <==> DigitValue(text[0]) < base && AllDigits(text[1..], base);
    }
  }

  /** Accepts exactly the non-empty digit strings of the base whose value fits in 64 bits. */
  function ParseUnsigned(text: string, base: nat): (r: Option<nat>)
    requires base == 10 || base == 16
    ensures r == if text != [] && AllDigits(text, base) && Value(text, base) < WORD
                 then Some(Value(text, base)) else None
  {
    DigitRunIsAll(text, base);
    assert text[..|text|] == text;
    if text == [] then None
    else
      var (value, consumed) := FromChars(text, base);
      if consumed == |text| then value else None
  }

  // ----- endpoints -----

  function WordCount(ipv6: bool): nat {
    if ipv6 then 4 else 1
  }

  /** Where the two digits of byte `i` stand: each group of eight is one little-endian word. */
  function Source(i: nat): nat {
    i / 4 * 8 + (3 - i % 4) * 2
  }

  function ByteAt(hex: string, i: nat): (r: Option<nat>)
    requires Source(i) + 2 <= |hex|
  {
    ParseUnsigned(hex[Source(i)..Source(i) + 2], 16)
  }

  predicate BytesParse(hex: string, count: nat)
    requires forall i :: 0 <= i < count ==> Source(i) + 2 <= |hex|
  {
    forall i :: 0 <= i < count ==> ByteAt(hex, i).Some?
  }

  /** The sixteen address bytes, of which the first `count` are read. */
  function AddressBytes(hex: string, count: nat): (bytes: seq<octet>)
    requires forall i :: 0 <= i < count ==> Source(i) + 2 <= |hex|
    requires BytesParse(hex, count)
  {
    seq(16, i requires 0 <= i < 16 => if i < count then (ByteAt(hex, i).value % 256) as octet else 0)
  }

  lemma SourceInRange(words: nat, i: nat)
    requires i < 4 * words
    ensures Source(i) + 2 <= 8 * words
  {
  }

  lemma SourcesInRange(words: nat)
    ensures forall i :: 0 <= i < 4 * words ==> Source(i) + 2 <= 8 * words
  {
    forall i: nat | i < 4 * words ensures Source(i) + 2 <= 8 * words {
      SourceInRange(words, i);
    }
  }

  function ParsedEndpoint(text: string, ipv6: bool): (r: Option<Endpoint>) {
    var separator := First(text, ':');
    if separator == |text| then None
    else
      var hex := text[..separator];
      var port := ParseUnsigned(text[separator + 1..], 16);
      var count := 4 * WordCount(ipv6);
      SourcesInRange(WordCount(ipv6));
      if port.None? || port.value > 65535 || |hex| != 2 * count || !BytesParse(hex, count) then None
      else
        Some(Endpoint(AddressBytes(hex, count), port.value))
  }

  method ParseEndpoint(text: string, ipv6: bool) returns (r: Option<Endpoint>)
    ensures r == ParsedEndpoint(text, ipv6)
  {
    hide Source, ByteAt;
    var separator := First(text, ':');
    if separator == |text| {
      return None;
    }
    var addressHex := text[..separator];
    var parsedPort := ParseUnsigned(text[separator + 1..], 16);
    if parsedPort.None? || parsedPort.value > 65535 {
      return None;
    }
    var expectedSize := if ipv6 then 32 else 8;
    if |addressHex| != expectedSize {
      return None;
    }
    var wordCount := WordCount(ipv6);
    SourcesInRange(wordCount);
    var bytes := new octet[16](_ => 0);
    var ok := FillAddress(addressHex, wordCount, bytes);
    if !ok {
      return None;
    }
    return Some(Endpoint(bytes[..], parsedPort.value));
  }

  /** The nested loops of `ParseEndpoint`. */
  method FillAddress(hex: string, wordCount: nat, bytes: array<octet>) returns (ok: bool)
    requires bytes.Length == 16 && wordCount <= 4 && |hex| == 8 * wordCount
    requires forall i :: 0 <= i < 16 ==> bytes[i] == 0
    requires forall i :: 0 <= i < 4 * wordCount ==> Source(i) + 2 <= |hex|
    modifies bytes
    ensures ok <==> BytesParse(hex, 4 * wordCount)
    ensures ok ==> bytes[..] == AddressBytes(hex, 4 * wordCount)
  {
    hide Source, ByteAt;
    for word := 0 to wordCount
      invariant forall i :: 0 <= i < 4 * word ==> ByteAt(hex, i).Some?
      invariant forall i :: 0 <= i < 4 * word ==> bytes[i] == ByteAt(hex, i).value % 256
      invariant forall i :: 4 * word <= i < 16 ==> bytes[i] == 0
    {
      for byte := 0 to 4
        invariant forall i :: 0 <= i < 4 * word + byte ==> ByteAt(hex, i).Some?
        invariant forall i :: 0 <= i < 4 * word + byte ==> bytes[i] == ByteAt(hex, i).value % 256
        invariant forall i :: 4 * word + byte <= i < 16 ==> bytes[i] == 0
      {
        var source := word * 8 + (3 - byte) * 2;
        ByteAtIs(hex, word, byte);
        var parsedByte := ParseUnsigned(hex[source..source + 2], 16);
        if parsedByte.None? {
          return false;
        }
        bytes[word * 4 + byte] := parsedByte.value % 256;
      }
    }
    return true;
  }

  lemma ByteAtIs(hex: string, word: nat, byte: nat)
    requires byte < 4 && word * 8 + (3 - byte) * 2 + 2 <= |hex|
    ensures Source(word * 4 + byte) == word * 8 + (3 - byte) * 2
    ensures ByteAt(hex, word * 4 + byte) == ParseUnsigned(hex[word * 8 + (3 - byte) * 2..word * 8 + (3 - byte) * 2 + 2], 16)
  {
  }

  // ----- lines -----

  const STATE_NAMES: map<string, string> := map[
    "01" := "ESTABLISHED", "02" := "SYN_SENT", "03" := "SYN_RECV", "04" := "FIN_WAIT1",
    "05" := "FIN_WAIT2", "06" := "TIME_WAIT", "07" := "CLOSE", "08" := "CLOSE_WAIT",
    "09" := "LAST_ACK", "0A" := "LISTEN", "0B" := "CLOSING", "0C" := "NEW_SYN_RECV"]

  function TcpStateName(state: string): string {
    if state in STATE_NAMES then STATE_NAMES[state] else "UNKNOWN(" + state + ")"
  }

  /** The words that a `stream >> field` loop yields. */
  function Words(s: string): (words: seq<string>)
    decreases |s|
  {
    match ExtractWord(s)
    case None => []
    case Some((word, rest)) => [word] + Words(rest)
  }

  function ParsedFields(fields: seq<string>, ipv6: bool): (r: Result) {
    if |fields| < 10 then Failure(NotEnoughFields)
    else
      var local, remote := ParsedEndpoint(fields[1], ipv6), ParsedEndpoint(fields[2], ipv6);
      if local.None? || remote.None? then Failure(InvalidEndpoint)
      else
        match ParseUnsigned(fields[9], 10)
        case None => Failure(InvalidInode)
        case Some(inode) =>
          Success(TcpConnection(
            if ipv6 then "tcp6" else "tcp4", local.value, remote.value, TcpStateName(fields[3]), inode))
  }

  method ParseTcpLine(line: string, ipv6: bool) returns (r: Result)
    ensures r == ParsedFields(Words(line), ipv6)
  {
    hide ParsedEndpoint, ExtractWord;
    var fields: seq<string> := [];
    var stream := line;
    var field := ExtractWord(stream);
    while field.Some?
      invariant field == ExtractWord(stream)
      invariant Words(line) == fields + Words(stream)
      decreases |stream|
    {
      assert fields + ([field.value.0] + Words(field.value.1)) == fields + [field.value.0] + Words(field.value.1);
      fields := fields + [field.value.0];
      stream := field.value.1;
      field := ExtractWord(stream);
    }
    assert fields + [] == fields;
    if |fields| < 10 {
      return Failure(NotEnoughFields);
    }
    var local := ParseEndpoint(fields[1], ipv6);
    if local.None? {
      return Failure(InvalidEndpoint);
    }
    var remote := ParseEndpoint(fields[2], ipv6);
    if remote.None? {
      return Failure(InvalidEndpoint);
    }
    var inode := ParseUnsigned(fields[9], 10);
    if inode.None? {
      return Failure(InvalidInode);
    }
    return Success(TcpConnection(
      if ipv6 then "tcp6" else "tcp4", local.value, remote.value, TcpStateName(fields[3]), inode.value));
  }
}
