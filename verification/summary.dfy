/**
 * Loading global_summary.txt (app.py lines 46-53): every line holding a colon is cut at
 * its first colon into a key and a value, both stripped, and stored in a dictionary.
 */
module Summary {
  import opened Wrappers
  import opened Strings

  /** The (key, value) entry one summary line contributes, if any. */
  function LineEntry(line: string): (e: Option<(string, string)>)
  {
    if ':' !in line then None
    else
      var parts := SplitFirst(Trim(line), ':');
      if parts.Some? then Some((Trim(parts.value.0), Trim(parts.value.1))) else None
  }

  /** A summary line yields an entry exactly when it contains a colon. */
  lemma LineEntryIffColon(line: string)
    ensures LineEntry(line).Some? <==> ':' in line
  {
    if ':' in line {
      ColonIsNotSpace();
      TrimKeeps(line, ':');
      var j := FirstOccurrence(Trim(line), ':');
      SplitFirstAt(Trim(line), ':', j);
    }
  }

  /**
   * The key is the stripped text before the line's first colon and the value the stripped
   * text after it (the source strips the line before cutting it; that changes nothing).
   */
  lemma LineEntryAtFirstColon(line: string, j: nat)
    requires j < |line| && line[j] == ':' && ':' !in line[..j]
    ensures LineEntry(line) == Some((Trim(line[..j]), Trim(line[j + 1..])))
  {
    var w1, w2 := TrimMargins(line);
    var t := Trim(line);
    ColonIsNotSpace();
    NonSpaceInCore(w1, t, w2, j);
    var k := j - |w1|;
    CutInMiddle(w1, t, w2, j);
    assert ':' !in t[..k] by {
      assert ':' !in line[..j];
    }
    SplitFirstAt(t, ':', k);
    TrimKeeps(line, ':');
    TrimIgnoresMargins(w1, t[..k], []);
    TrimIgnoresMargins([], t[k + 1..], w2);
  }

  /**
   * The dictionary after storing the given entries in order, as `table[key] = value` does:
   * a later entry for a key overwrites an earlier one.
   */
  function TableOf(entries: seq<Option<(string, string)>>): map<string, string>
  {
    if entries == [] then map[]
    else
      var table := TableOf(entries[..|entries| - 1]);
      var entry := entries[|entries| - 1];
      if entry.Some? then table[entry.value.0 := entry.value.1] else table
  }

  /** The entry of each line, in file order. */
  function LineEntries(lines: seq<string>): (entries: seq<Option<(string, string)>>)
    ensures |entries| == |lines|
    ensures forall i :: 0 <= i < |lines| ==> entries[i] == LineEntry(lines[i])
  {
    if lines == [] then []
    else
      var prefix := lines[..|lines| - 1];
      var entries := LineEntries(prefix);
      assert forall i :: 0 <= i < |prefix| ==> lines[i] == prefix[i];
      entries + [LineEntry(lines[|lines| - 1])]
  }

  /** One more line of the file appends its entry. */
  lemma LineEntriesStep(lines: seq<string>, i: nat)
    requires i < |lines|
    ensures LineEntries(lines[..i + 1]) == LineEntries(lines[..i]) + [LineEntry(lines[i])]
  {
    assert lines[..i + 1][..i] == lines[..i];
  }

  /** The summary table read from the lines of global_summary.txt. */
  function SummaryOf(lines: seq<string>): map<string, string>
  {
    TableOf(LineEntries(lines))
  }

  /**
   * Builds the summary table from the contents of global_summary.txt, or gives the empty
   * table when that file does not exist (None).
   */
  method LoadSummary(file: Option<seq<string>>) returns (table: map<string, string>)
    ensures file.None? ==> table == map[]
    ensures file.Some? ==> table == SummaryOf(file.value)
  {
    table := map[];
    if file.Some? {
      var lines := file.value;
      var i := 0;
      while i < |lines|
        invariant 0 <= i <= |lines|
        invariant table == TableOf(LineEntries(lines[..i]))
      {
        var line := lines[i];
        if ':' in line {
          LineEntryIffColon(line);
          var parts := SplitFirst(Trim(line), ':');
          table := table[Trim(parts.value.0) := Trim(parts.value.1)];
        }
        LineEntriesStep(lines, i);
        i := i + 1;
      }
      assert lines[..|lines|] == lines;
    }
  }

  /** A key is in the table exactly when some entry carries it. */
  lemma {:induction false} TableKeys(entries: seq<Option<(string, string)>>, key: string)
    ensures key in TableOf(entries) <==>
      exists i :: 0 <= i < |entries| && entries[i].Some? && entries[i].value.0 == key
  {
    if entries != [] {
      var prefix := entries[..|entries| - 1];
      TableKeys(prefix, key);
      assert forall i :: 0 <= i < |prefix| ==> entries[i] == prefix[i];
    }
  }

  /** The value stored for a key is that of the last entry carrying it. */
  lemma {:induction false} TableLastWins(entries: seq<Option<(string, string)>>, i: nat)
    requires i < |entries| && entries[i].Some?
    requires forall j :: i < j < |entries| && entries[j].Some? ==> entries[j].value.0 != entries[i].value.0
    ensures entries[i].value.0 in TableOf(entries)
    ensures TableOf(entries)[entries[i].value.0] == entries[i].value.1
  {
    if i < |entries| - 1 {
      var prefix := entries[..|entries| - 1];
      assert forall j :: 0 <= j < |prefix| ==> entries[j] == prefix[j];
      TableLastWins(prefix, i);
    }
  }

  /** The table holds exactly the keys of the lines that yield an entry. */
  lemma SummaryKeys(lines: seq<string>, key: string)
    ensures key in SummaryOf(lines) <==>
      exists i :: 0 <= i < |lines| && LineEntry(lines[i]).Some? && LineEntry(lines[i]).value.0 == key
  {
    TableKeys(LineEntries(lines), key);
  }

  /** For a repeated key the last line wins: the value is that of the last line with the key. */
  lemma SummaryLastWins(lines: seq<string>, i: nat)
    requires i < |lines| && LineEntry(lines[i]).Some?
    requires forall j :: i < j < |lines| && LineEntry(lines[j]).Some? ==>
      LineEntry(lines[j]).value.0 != LineEntry(lines[i]).value.0
    ensures LineEntry(lines[i]).value.0 in SummaryOf(lines)
    ensures SummaryOf(lines)[LineEntry(lines[i]).value.0] == LineEntry(lines[i]).value.1
  {
    TableLastWins(LineEntries(lines), i);
  }
}
