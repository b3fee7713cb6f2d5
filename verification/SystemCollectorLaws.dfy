/** The memory figures that the collector reads out of /proc/meminfo. */
module SystemCollectorLaws {
  import opened Basics
  import opened Digits
  import opened Text
  import opened SystemMetricsModel
  import opened SystemCollector

  /** One line of /proc/meminfo: a key, padding, a number and its unit. Counts of pages have none. */
  datatype Entry = Entry(key: string, gap: string, value: nat, unit: string) {
    predicate Valid() {
      IsWord(key) && value < WORD && gap != [] && IsBlank(gap) && (unit == "" || IsWord(unit))
    }

    function Print(): string {
      key + gap + Decimal(value) + if unit == "" then "" else " " + unit
    }
  }

  function Printed(entries: seq<Entry>): (lines: seq<string>) {
    if entries == [] then [] else [entries[0].Print()] + Printed(entries[1..])
  }

  /** The value of the last entry of that key in kilobytes. */
  function LastValue(entries: seq<Entry>, key: string): (r: Option<nat>)
    decreases |entries|
  {
    if entries == [] then None
    else
      var last := entries[|entries| - 1];
      if last.key == key && last.unit == "kB" then Some(last.value) else LastValue(entries[..|entries| - 1], key)
  }

  lemma KeyIsExtracted(key: string, gap: string, rest: string)
    requires IsWord(key) && gap != [] && IsBlank(gap)
    ensures ExtractWord(key + (gap + rest)) == Some((key, gap + rest))
  {
    var after := gap + rest;
    assert after[0] == gap[0];
    WordLengthOfConcat(key, after);
    assert (key + after)[0] == key[0];
    SpaceSeparates(key[0]);
    assert SkipSpace(key + after) == key + after;
  }

  lemma ValueIsExtracted(gap: string, value: nat, rest: string)
    requires value < WORD && EndsNumber(rest) && IsBlank(gap)
    ensures ExtractUnsigned(gap + (Decimal(value) + rest)) == Some((value, rest))
  {
    hide Number, SkipSpace, Decimal;
    assert PrintInt(value) == Decimal(value);
    NumberOfPrinted(value, rest);
    PrintedIsNoSpace(value);
    SpaceBefore(Decimal(value) + rest);
    SkipBlank(gap, Decimal(value) + rest);
  }

  lemma UnitIsExtracted(unit: string)
    requires unit == "" || IsWord(unit)
    ensures var rest := if unit == "" then "" else " " + unit;
      && EndsNumber(rest)
      && ExtractWord(rest) == if unit == "" then None else Some((unit, ""))
  {
    if unit != "" {
      SpaceBefore(unit);
      WordLengthOfConcat(unit, "");
      assert unit + "" == unit;
      assert unit[..|unit|] == unit && unit[|unit|..] == "";
    }
  }

  lemma EntryIsRead(info: MemInfo, e: Entry)
    requires e.Valid()
    ensures MemInfoLine(info, e.Print()) ==
      if e.unit != "kB" then info
      else if e.key == "MemTotal:" then info.(total := Some(e.value))
      else if e.key == "MemAvailable:" then info.(available := Some(e.value))
      else info
  {
    hide ExtractWord, ExtractUnsigned, Decimal, IsWord, IsBlank;
    var end := if e.unit == "" then "" else " " + e.unit;
    var number := Decimal(e.value) + end;
    assert e.Print() == e.key + (e.gap + number);
    KeyIsExtracted(e.key, e.gap, number);
    UnitIsExtracted(e.unit);
    ValueIsExtracted(e.gap, e.value, end);
  }

  lemma {:induction false} LinesOfConcat(info: MemInfo, a: seq<string>, b: seq<string>)
    ensures MemInfoLines(info, a + b) == MemInfoLines(MemInfoLines(info, a), b)
    decreases |a|
  {
    hide MemInfoLine;
    if a == [] {
      assert a + b == b;
    } else {
      assert (a + b)[1..] == a[1..] + b;
      LinesOfConcat(MemInfoLine(info, a[0]), a[1..], b);
    }
  }

  lemma {:induction false} PrintedOfConcat(a: seq<Entry>, e: Entry)
    ensures Printed(a + [e]) == Printed(a) + [e.Print()]
  {
    hide Entry.Print;
    if a == [] {
      assert (a + [e])[1..] == [];
    } else {
      assert (a + [e])[1..] == a[1..] + [e];
      PrintedOfConcat(a[1..], e);
    }
  }

  /** Whatever entries surround them, in whatever units and however padded, the figures used are the last
      MemTotal and the last MemAvailable given in kilobytes. */
  lemma {:induction false} MemoryIsRead(entries: seq<Entry>)
    requires forall k :: 0 <= k < |entries| ==> entries[k].Valid()
    ensures MemInfoLines(MemInfo(None, None), Printed(entries)) ==
      MemInfo(LastValue(entries, "MemTotal:"), LastValue(entries, "MemAvailable:"))
    decreases |entries|
  {
    hide MemInfoLine, Entry.Print, Entry.Valid;
    if entries != [] {
      var front, last := entries[..|entries| - 1], entries[|entries| - 1];
      MemoryIsRead(front);
      assert entries == front + [last];
      PrintedOfConcat(front, last);
      var none := MemInfo(None, None);
      LinesOfConcat(none, Printed(front), [last.Print()]);
      var info := MemInfoLines(none, Printed(front));
      assert [last.Print()][1..] == [];
      assert MemInfoLines(info, [last.Print()]) == MemInfoLine(info, last.Print());
      EntryIsRead(info, last);
    }
  }
}
