/** Text mode: the entries shown as one `text | weight | tags` line each
    (`updateTextModeArea`), and the text area read back into entries (`parseTextModeArea`). */
module TextMode {
  import opened Strings
  import opened Entries

  /** `${e.text} | ${e.weight} | ${e.tags}` */
  function FormatEntry(e: Entry): string {
    e.text + " | " + Decimal(e.weight) + " | " + e.tags
  }

  function FormatLines(entries: seq<Entry>): (lines: seq<string>)
    ensures |lines| == |entries|
  {
    seq(|entries|, k requires 0 <= k < |entries| => FormatEntry(entries[k]))
  }

  /** `updateTextModeArea`: the lines joined with line feeds. Nothing gives the empty text, and
      when every entry fits on its line the text splits back into one line per entry. */
  function Serialise(entries: seq<Entry>): (text: string)
    ensures entries == [] ==> text == ""
    ensures entries != [] && (forall k :: 0 <= k < |entries| ==> Writable(entries[k])) ==>
              Split(text, '\n') == FormatLines(entries)
  {
    var lines := FormatLines(entries);
    if entries != [] && (forall k :: 0 <= k < |entries| ==> Writable(entries[k])) then
      FormattedLines(entries);
      SplitJoin(lines, '\n');
      Join(lines, '\n')
    else
      Join(lines, '\n')
  }

  /** No formatted line of writable entries holds a line feed or is blank. */
  lemma FormattedLines(entries: seq<Entry>)
    requires forall k :: 0 <= k < |entries| ==> Writable(entries[k])
    ensures forall k :: 0 <= k < |entries| ==>
              '\n' !in FormatLines(entries)[k] && Trim(FormatLines(entries)[k]) != ""
  {
    forall k | 0 <= k < |entries|
      ensures '\n' !in FormatLines(entries)[k] && Trim(FormatLines(entries)[k]) != ""
    {
      FormattedLine(entries[k]);
    }
  }

  /** One trimmed line read back: split at `|`, each part trimmed; a missing text or tags part
      is empty and a missing or unreadable weight is 1. The fields come out trimmed and free of
      `|`, and a line without `|` is all text. */
  function ParseLine(line: string): (e: Entry)
    ensures e.weight >= 1
    ensures IsTrimmed(e.text) && '|' !in e.text
    ensures IsTrimmed(e.tags) && '|' !in e.tags
    ensures '|' !in line ==> e == Entry(Trim(line), 1, "")
  {
    var pieces := Split(line, '|');
    TrimAllKeepsAbsent(pieces, '|');
    var parts := TrimAll(pieces);
    Entry(parts[0],
          if |parts| > 1 then NumberOrOne(parts[1]) else 1,
          if |parts| > 2 then parts[2] else "")
  }

  /** The fields of a line with `|` in it: the text is the trimmed first part, the weight is
      read from the trimmed second part (1 when that is empty or zero), and the tags are the
      trimmed third part, or empty when there is none. */
  lemma ParseLineDefaults(line: string)
    ensures var pieces := Split(line, '|');
            var e := ParseLine(line);
            && e.text == Trim(pieces[0])
            && (|pieces| == 1 ==> e.weight == 1 && e.tags == "")
            && (|pieces| >= 2 ==> e.weight == NumberOrOne(Trim(pieces[1])))
            && (|pieces| >= 2 && Trim(pieces[1]) in {"", "0"} ==> e.weight == 1)
            && (|pieces| == 2 ==> e.tags == "")
            && (|pieces| >= 3 ==> e.tags == Trim(pieces[2]))
  {
    assert DecimalValue("0") == 0 by {
      assert "0"[..0] == [];
    }
  }

  /** `parseTextModeArea`: one entry per non-blank line, in order. */
  function ParseText(text: string): (entries: seq<Entry>)
    ensures |entries| == |NonBlankLines(text)|
  {
    var lines := NonBlankLines(text);
    seq(|lines|, k requires 0 <= k < |lines| => ParseLine(lines[k]))
  }

  /** What a line of text mode can carry without being changed by the way back: a weight of at
      least 1 and text and tags with no surrounding space, no `|` and no line feed. */
  predicate Writable(e: Entry) {
    e.weight >= 1 &&
    IsTrimmed(e.text) && '|' !in e.text && '\n' !in e.text &&
    IsTrimmed(e.tags) && '|' !in e.tags && '\n' !in e.tags
  }

  lemma DecimalIsTrimmed(n: nat)
    ensures IsTrimmed(Decimal(n)) && '|' !in Decimal(n) && '\n' !in Decimal(n)
  {
    var d := Decimal(n);
    assert IsDigit(d[0]) && IsDigit(d[|d| - 1]);
  }

  /** The three parts of a formatted line, before trimming. */
  lemma FormatPieces(e: Entry)
    requires '|' !in e.text && '|' !in e.tags
    ensures Split(FormatEntry(e), '|') == [e.text + " ", " " + Decimal(e.weight) + " ", " " + e.tags]
  {
    var d := Decimal(e.weight);
    DecimalIsTrimmed(e.weight);
    var last := " " + e.tags;
    var middle := " " + d + " ";
    NotInConcat(" ", e.tags, '|');
    assert Split(last, '|') == [last];
    NotInConcat(" ", d, '|');
    NotInConcat(" " + d, " ", '|');
    SplitAfterFirst(middle, last, '|');
    NotInConcat(e.text, " ", '|');
    assert FormatEntry(e) == (e.text + " ") + ['|'] + (middle + ['|'] + last);
    SplitAfterFirst(e.text + " ", middle + ['|'] + last, '|');
  }

  /** A formatted line, trimmed as the text area's lines are, parses back to its entry. */
  lemma LineRoundTrip(e: Entry)
    requires Writable(e)
    ensures ParseLine(Trim(FormatEntry(e))) == e
  {
    var line := FormatEntry(e);
    var d := Decimal(e.weight);
    DecimalIsTrimmed(e.weight);
    SplitOfTrimmed(line, '|');
    FormatPieces(e);
    var parts := TrimAll(Split(line, '|'));
    TrimPaddedEnd(e.text, " ");
    TrimOfTrimmed(e.text);
    assert parts[0] == e.text;
    assert " " + d + " " == " " + (d + " ");
    TrimPaddedStart(" ", d + " ");
    TrimPaddedEnd(d, " ");
    TrimOfTrimmed(d);
    assert parts[1] == d;
    TrimPaddedStart(" ", e.tags);
    TrimOfTrimmed(e.tags);
    assert parts[2] == e.tags;
    NumberOrOneOfDecimal(e.weight);
  }

  /** A formatted line holds no line feed and is never blank. */
  lemma FormattedLine(e: Entry)
    requires Writable(e)
    ensures '\n' !in FormatEntry(e)
    ensures Trim(FormatEntry(e)) != ""
  {
    var d := Decimal(e.weight);
    DecimalIsTrimmed(e.weight);
    NotInConcat(e.text, " | ", '\n');
    NotInConcat(e.text + " | ", d, '\n');
    NotInConcat(e.text + " | " + d, " | ", '\n');
    NotInConcat(e.text + " | " + d + " | ", e.tags, '\n');
    assert FormatEntry(e)[|e.text| + 1] == '|';
    TrimKeepsNonSpace(FormatEntry(e), |e.text| + 1);
  }

  /** Switching text mode on and off again gives back the entries, when each fits on its line. */
  lemma RoundTrip(entries: seq<Entry>)
    requires forall k :: 0 <= k < |entries| ==> Writable(entries[k])
    ensures ParseText(Serialise(entries)) == entries
  {
    var lines := FormatLines(entries);
    var text := Serialise(entries);
    if entries == [] {
      assert Split(text, '\n') == [""];
    } else {
      FormattedLines(entries);
      TrimmedLinesIgnoreCr(text);
      TrimFilterKeepsAll(lines);
      forall k | 0 <= k < |entries|
        ensures ParseText(text)[k] == entries[k]
      {
        LineRoundTrip(entries[k]);
      }
    }
  }

  /** What text mode reads fits on its lines: the entries it parses are all writable, so
      switching back to the table and into text mode once more changes nothing. */
  lemma ParsedWritable(text: string)
    ensures forall k :: 0 <= k < |ParseText(text)| ==> Writable(ParseText(text)[k])
    ensures ParseText(Serialise(ParseText(text))) == ParseText(text)
  {
    var lines := NonBlankLines(text);
    NonBlankLinesAreLines(text);
    forall k | 0 <= k < |lines|
      ensures Writable(ParseLine(lines[k]))
    {
      SplitKeepsAbsent(lines[k], '|', '\n');
      TrimAllKeepsAbsent(Split(lines[k], '|'), '\n');
    }
    RoundTrip(ParseText(text));
  }
}
