/** Configuration files as people write them: settings with white space around them, comments and blank lines. */
module ConfigText {
  import opened Basics
  import opened Digits
  import opened Text
  import opened Config
  import opened ConfigLaws

  /** One line, without its newline. */
  datatype Item =
    | Blank(space: string)
    | Comment(space: string, text: string)
    | Setting(before: string, key: string, afterKey: string, beforeValue: string, value: string, after: string)
    | Junk(before: string, text: string, after: string)
  {
    ghost predicate Valid() {
      '\n' !in Print() &&
      match this
      case Blank(space) => IsBlank(space)
      case Comment(space, _) => IsBlank(space)
      case Setting(before, key, afterKey, beforeValue, value, after) =>
        && IsBlank(before) && IsBlank(afterKey) && IsBlank(beforeValue) && IsBlank(after)
        && key != "" && key[0] != '#' && '=' !in key && IsBare(key) && IsBare(value)
      case Junk(before, text, after) =>
        IsBlank(before) && IsBlank(after) && text != "" && text[0] != '#' && '=' !in text && IsBare(text)
    }

    function Print(): (line: string) {
      match this
      case Blank(space) => space
      case Comment(space, text) => space + "#" + text
      case Setting(before, key, afterKey, beforeValue, value, after) =>
        before + key + afterKey + "=" + beforeValue + value + after
      case Junk(before, text, after) => before + text + after
    }
  }

  /** No white space at either end. */
  predicate IsBare(s: string) {
    s != "" ==> !Separates(s[0]) && !Separates(s[|s| - 1])
  }

  function Contents(items: seq<Item>): (file: string) {
    if items == [] then "" else items[0].Print() + "\n" + Contents(items[1..])
  }

  /** The settings take effect in turn; the first bad one is reported with the number of its line. */
  function Effect(c: AgentConfig, items: seq<Item>, number: nat): (r: Result)
    decreases |items|
  {
    if items == [] then Success(c)
    else
      match items[0]
      case Blank(_) => Effect(c, items[1..], number + 1)
      case Comment(_, _) => Effect(c, items[1..], number + 1)
      case Junk(_, _, _) => Failure(InvalidLine(number))
      case Setting(_, key, _, _, value, _) =>
        match Assigned(c, key, value, number)
        case Failure(error) => Failure(error)
        case Success(next) => Effect(next, items[1..], number + 1)
  }

  // ----- white space around a text -----

  lemma {:induction false} TrimRightOfBlank(s: string, blank: string)
    requires IsBlank(blank) && (s != "" ==> !Separates(s[|s| - 1]))
    ensures TrimRight(s + blank) == s
    decreases |blank|
  {
    if blank == "" {
      assert s + blank == s;
      if s != "" {
        SpaceSeparates(s[|s| - 1]);
      }
    } else {
      SpaceSeparates(blank[|blank| - 1]);
      assert (s + blank)[..|s + blank| - 1] == s + blank[..|blank| - 1];
      TrimRightOfBlank(s, blank[..|blank| - 1]);
    }
  }

  lemma TrimIs(before: string, s: string, after: string)
    requires IsBlank(before) && IsBlank(after) && IsBare(s)
    ensures Trim(before + s + after) == s
  {
    assert before + s + after == before + (s + after);
    SkipBlank(before, s + after);
    if s == "" {
      SkipBlank(after, "");
      assert s + after == after && after + "" == after;
    } else {
      SpaceSeparates(s[0]);
      assert (s + after)[0] == s[0];
      assert SkipSpace(s + after) == s + after;
      TrimRightOfBlank(s, after);
    }
  }

  // ----- one line -----

  lemma BlankIsSkipped(c: AgentConfig, item: Item, number: nat)
    requires item.Valid() && (item.Blank? || item.Comment?)
    ensures LoadedLine(c, item.Print(), number) == Success(c)
  {
    var line := item.Print();
    if item.Blank? {
      TrimIs(line, "", "");
      assert line + "" + "" == line;
    } else {
      var rest := "#" + item.text;
      assert line == item.space + rest;
      SkipBlank(item.space, rest);
      assert SkipSpace(rest) == rest;
      TrimRightKeepsHead(rest);
    }
  }

  lemma {:induction false} TrimRightKeepsHead(s: string)
    requires s != "" && !IsSpace(s[0])
    ensures TrimRight(s) != "" && TrimRight(s)[0] == s[0]
    decreases |s|
  {
    if IsSpace(s[|s| - 1]) {
      TrimRightKeepsHead(s[..|s| - 1]);
    }
  }

  lemma JunkIsRefused(c: AgentConfig, item: Item, number: nat)
    requires item.Valid() && item.Junk?
    ensures LoadedLine(c, item.Print(), number) == Failure(InvalidLine(number))
  {
    TrimIs(item.before, item.text, item.after);
    assert item.text[..|item.text|] == item.text;
    FirstIs(item.text, '=', |item.text|);
  }

  lemma SettingIsAssigned(c: AgentConfig, item: Item, number: nat)
    requires item.Valid() && item.Setting?
    ensures LoadedLine(c, item.Print(), number) == Assigned(c, item.key, item.value, number)
  {
    hide Assigned, Trim, First;
    var key, value := item.key, item.value;
    var left, right := key + item.afterKey, item.beforeValue + value;
    var line := left + "=" + right;
    // White space after an empty value runs into the white space before it.
    var tail := if value == "" then item.beforeValue + item.after else item.after;
    var bare := if value == "" then left + "=" else line;
    assert item.Print() == item.before + bare + tail;
    TrimIs(item.before, bare, tail);
    assert '=' !in left by {
      BlankHasNo(item.afterKey);
    }
    assert bare[..|left|] == left;
    FirstIs(bare, '=', |left|);
    assert left == "" + key + item.afterKey;
    TrimIs("", key, item.afterKey);
    var found := bare[|left| + 1..];
    if value == "" {
      assert found == "" + "" + "";
      TrimIs("", "", "");
    } else {
      assert found == item.beforeValue + value + "";
      TrimIs(item.beforeValue, value, "");
    }
  }

  lemma BlankHasNo(blank: string)
    requires IsBlank(blank)
    ensures '=' !in blank
  {
  }

  // ----- whole files -----

  lemma {:induction false} ItemsAreLoaded(c: AgentConfig, items: seq<Item>, number: nat)
    requires forall k :: 0 <= k < |items| ==> items[k].Valid()
    ensures LoadedLines(c, Segments(Contents(items), '\n'), number) == Effect(c, items, number)
    decreases |items|
  {
    hide LoadedLine, Assigned, Segments, Item.Print, Item.Valid;
    if items == [] {
      assert Segments("", '\n') == [] by {
        NothingSegmented('\n');
      }
    } else {
      var item, rest := items[0], Contents(items[1..]);
      LineIsOne(item);
      SegmentsOfLine(item.Print(), '\n', rest);
      var others := Segments(rest, '\n');
      assert ([item.Print()] + others)[1..] == others;
      match item {
        case Blank(_) => BlankIsSkipped(c, item, number);
        case Comment(_, _) => BlankIsSkipped(c, item, number);
        case Junk(_, _, _) => JunkIsRefused(c, item, number);
        case Setting(_, key, _, _, value, _) => SettingIsAssigned(c, item, number);
      }
      var r := LoadedLine(c, item.Print(), number);
      if r.Success? {
        ItemsAreLoaded(r.config, items[1..], number + 1);
      }
    }
  }

  lemma NothingSegmented(separator: char)
    ensures Segments("", separator) == []
  {
  }

  lemma LineIsOne(item: Item)
    requires item.Valid()
    ensures '\n' !in item.Print()
  {
  }

  /** Comments and blank lines anywhere and white space around keys and values change nothing; settings take
      effect in order over the defaults; and what is wrong is reported with the number of its line. */
  lemma LoadedFileIs(items: seq<Item>)
    requires forall k :: 0 <= k < |items| ==> items[k].Valid()
    ensures Loaded(Some(Contents(items))) == Effect(
      AgentConfig("127.0.0.1:50051", 1000, "/tmp/edgescope-agent.log", "/tmp/edgescope-diagnostics",
                  ["ssh.service", "cron.service"]),
      items, 1)
  {
    hide LoadedLines, Effect, Contents, Segments, Item.Valid;
    ItemsAreLoaded(DEFAULTS, items, 1);
  }

  // ----- one setting -----

  /** Which key means what, which values it takes, and how a bad one is reported. */
  lemma SettingTakesEffectExactlyWhen(c: AgentConfig, key: string, value: string, number: nat)
    ensures var r := Assigned(c, key, value, number);
      match key
      case "listen_address" =>
        r == if HasHostAndPort(value) then Success(c.(listenAddress := value))
             else Failure(InvalidListenAddress(number))
      case "sample_interval_ms" =>
        && (forall ms: nat :: Spells(value, ms) && 100 <= ms <= 60000 ==> r == Success(c.(sampleIntervalMs := ms)))
        && ((forall ms: nat :: Spells(value, ms) ==> !(100 <= ms <= 60000)) ==> r == Failure(InvalidSampleInterval))
      case "log_file" =>
        r == if value != "" && value[0] == '/' then Success(c.(logFile := value)) else Failure(InvalidLogFile)
      case "diagnostic_directory" =>
        r == if value != "" && value[0] == '/' then Success(c.(diagnosticDirectory := value))
             else Failure(InvalidDirectory)
      case "allowed_services" => r.Failure? ==> r == Failure(InvalidServiceName)
      case _ => r == Failure(UnknownKey(number, key))
  {
    hide WholeNumber, Spells, HasHostAndPort, IsValidAddress, TrimmedNonEmpty, Segments, AllValid;
    AddressAcceptedExactlyWhen(value);
    forall ms: nat ensures WholeNumber(value) == Some(ms) <==> Spells(value, ms) {
      WholeNumberExactlyWhen(value, ms);
    }
  }

  // ----- the list of services -----

  /** One segment between commas; it may hold no name at all. */
  datatype Piece = Piece(before: string, name: string, after: string) {
    predicate Valid() {
      IsBlank(before) && IsBlank(after) && IsBare(name) && ',' !in name
    }

    function Print(): string {
      before + name + after
    }
  }

  function Listed(pieces: seq<Piece>): (value: string) {
    if pieces == [] then ""
    else if |pieces| == 1 then pieces[0].Print()
    else pieces[0].Print() + "," + Listed(pieces[1..])
  }

  function Names(pieces: seq<Piece>): (names: seq<string>) {
    if pieces == [] then []
    else (if pieces[0].name == "" then [] else [pieces[0].name]) + Names(pieces[1..])
  }

  lemma PieceIsTrimmed(piece: Piece)
    requires piece.Valid()
    ensures Trim(piece.Print()) == piece.name && ',' !in piece.Print()
  {
    TrimIs(piece.before, piece.name, piece.after);
  }

  lemma KeptOfCons(segment: string, segments: seq<string>)
    ensures TrimmedNonEmpty([segment] + segments) ==
      (if Trim(segment) == "" then [] else [Trim(segment)]) + TrimmedNonEmpty(segments)
  {
    hide Trim;
    assert ([segment] + segments)[1..] == segments;
  }

  lemma LastSegment(segment: string)
    requires ',' !in segment
    ensures TrimmedNonEmpty(Segments(segment, ',')) == if Trim(segment) == "" then [] else [Trim(segment)]
  {
    if segment == "" {
      NothingSegmented(',');
      TrimIs("", "", "");
    } else {
      SegmentsOfLast(segment, ',');
      hide Trim, Segments;
      KeptOfCons(segment, []);
      assert [segment] + [] == [segment];
    }
  }

  lemma {:induction false} PiecesAreKept(pieces: seq<Piece>)
    requires forall k :: 0 <= k < |pieces| ==> pieces[k].Valid()
    ensures TrimmedNonEmpty(Segments(Listed(pieces), ',')) == Names(pieces)
  {
    hide Trim, Segments, TrimmedNonEmpty, Piece.Valid, Piece.Print;
    if pieces == [] {
      LastSegment("");
      TrimOfNothing();
    } else {
      PieceIsTrimmed(pieces[0]);
      if |pieces| == 1 {
        LastSegment(pieces[0].Print());
        assert pieces[1..] == [];
      } else {
        var rest := Listed(pieces[1..]);
        PiecesAreKept(pieces[1..]);
        SegmentsOfLine(pieces[0].Print(), ',', rest);
        KeptOfCons(pieces[0].Print(), Segments(rest, ','));
      }
    }
  }

  lemma TrimOfNothing()
    ensures Trim("") == ""
  {
  }

  /** The names between the commas, without white space and without the empty ones, are the services; all must be
      acceptable. */
  lemma ServicesTakeEffectExactlyWhen(c: AgentConfig, pieces: seq<Piece>, number: nat)
    requires forall k :: 0 <= k < |pieces| ==> pieces[k].Valid()
    ensures var names := Names(pieces);
      Assigned(c, "allowed_services", Listed(pieces), number) ==
      if forall k :: 0 <= k < |names| ==> EndsInServiceOrHasSeven(names[k])
      then Success(c.(allowedServices := names)) else Failure(InvalidServiceName)
  {
    hide TrimmedNonEmpty, Segments, EndsInServiceOrHasSeven, IsValidServiceName, Listed, Names;
    PiecesAreKept(pieces);
    var names := Names(pieces);
    forall k | 0 <= k < |names| ensures IsValidServiceName(names[k]) <==> EndsInServiceOrHasSeven(names[k]) {
      ServiceNameAcceptedExactlyWhen(names[k]);
    }
  }
}
