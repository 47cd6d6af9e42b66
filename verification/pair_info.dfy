/**
 * Reading a matched pair's `<base>_info.txt` (app.py lines 95-118): each line is stripped
 * and matched against `^(.*?):\s*(.*)$`; on a match the label is renamed to its display
 * form and the (label, value) pair is appended to the stats, in line order.
 */
module PairInfo {
  import opened Wrappers
  import opened Strings
  import opened Filtering

  /**
   * On a stripped line s, the pattern can match with its colon at index m of s: the lazy
   * `(.*?)` takes s[..m] (`.` does not match a newline), `\s*` takes the whitespace after the
   * colon and `(.*)$` the rest, which must then hold no newline. A stripped line never ends in
   * a newline, so the other place where Python's `$` matches, just before a final newline,
   * does not arise.
   */
  predicate ColonMatchAt(s: string, m: nat)
    requires m < |s|
  {
    s[m] == ':' && '\n' !in s[..m] && '\n' !in TrimLeft(s[m + 1..])
  }

  /** The leftmost colon at or after `from` at which the pattern matches (lazy group 1). */
  function LeftmostMatch(s: string, from: nat): (r: Option<nat>)
    requires from <= |s|
    ensures r.Some? ==> from <= r.value < |s| && ColonMatchAt(s, r.value)
    ensures forall m :: from <= m < |s| && (r.None? || m < r.value) ==> !ColonMatchAt(s, m)
    decreases |s| - from
  {
    if from == |s| then None
    else if ColonMatchAt(s, from) then Some(from)
    else LeftmostMatch(s, from + 1)
  }

  /** `re.match(r"^(.*?):\s*(.*)$", s).groups()` on a stripped line s, when the pattern matches. */
  function MatchGroups(s: string): Option<(string, string)>
  {
    var m := LeftmostMatch(s, 0);
    if m.Some? then Some((s[..m.value], TrimLeft(s[m.value + 1..]))) else None
  }

  /** The groups matched on one line of an info file, after `line.strip()`. */
  function ParseInfoLine(line: string): Option<(string, string)>
  {
    MatchGroups(Trim(line))
  }

  /** The raw labels the dashboard renames, and their display forms, position by position. */
  const RawLabels: seq<string> :=
    ["Neuron Algo1 ID", "Neuron Algo2 ID", "Algo1 spikes", "Algo2 spikes", "Matched spikes", "Match score"]
  const DisplayLabels: seq<string> :=
    ["Kilosort4 Neuron ID", "Jim's Neuron ID", "Kilosort4 Spikes", "Jim's Spikes", "Matched Spikes", "Match Score"]

  /** The label-cleaning if/elif chain. */
  function Rename(name: string): string
  {
    if name == "Neuron Algo1 ID" then "Kilosort4 Neuron ID"
    else if name == "Neuron Algo2 ID" then "Jim's Neuron ID"
    else if name == "Algo1 spikes" then "Kilosort4 Spikes"
    else if name == "Algo2 spikes" then "Jim's Spikes"
    else if name == "Matched spikes" then "Matched Spikes"
    else if name == "Match score" then "Match Score"
    else name
  }

  /** The (display label, value) pair one line contributes, if any. */
  function DisplayStat(line: string): Option<(string, string)>
  {
    var g := ParseInfoLine(line);
    if g.Some? then Some((Rename(g.value.0), g.value.1)) else None
  }

  /** The stats list built from the lines of an info file. */
  function InfoStats(lines: seq<string>): seq<(string, string)>
  {
    Kept(lines, DisplayStat)
  }

  /** The loop over `f.readlines()` that fills stat_data. */
  method ParseInfo(lines: seq<string>) returns (stats: seq<(string, string)>)
    ensures stats == InfoStats(lines)
  {
    stats := [];
    for i := 0 to |lines|
      invariant stats == InfoStats(lines[..i])
    {
      var groups := MatchGroups(Trim(lines[i]));
      if groups.Some? {
        var display := Rename(groups.value.0);
        stats := stats + [(display, groups.value.1)];
      }
      assert lines[..i + 1][..i] == lines[..i];
    }
    assert lines[..|lines|] == lines;
  }

  /** The rename table: exactly the six raw labels change, each to its display form. */
  lemma RenameTable(name: string)
    ensures Rename(name) != name <==> name in RawLabels
    ensures forall k :: 0 <= k < |RawLabels| ==> Rename(RawLabels[k]) == DisplayLabels[k]
  {
  }

  /** Renaming twice is renaming once: no display label is itself a raw label. */
  lemma RenameIdempotent(name: string)
    ensures Rename(Rename(name)) == Rename(name)
  {
  }

  /** Without a colon the pattern does not match. */
  lemma MatchGroupsNoColon(s: string)
    requires ':' !in s
    ensures MatchGroups(s) == None
  {
  }

  /**
   * On a string without newlines the pattern amounts to a split at the first colon:
   * the label is all the text before it (not right-stripped) and the value all the text
   * after it minus its leading whitespace.
   */
  lemma MatchGroupsAtFirstColon(s: string, j: nat)
    requires '\n' !in s
    requires j < |s| && s[j] == ':' && ':' !in s[..j]
    ensures MatchGroups(s) == Some((s[..j], TrimLeft(s[j + 1..])))
  {
    TrimLeftSpec(s[j + 1..]);
    assert TrimLeft(s[j + 1..]) == s[|s| - |TrimLeft(s[j + 1..])|..];
    assert ColonMatchAt(s, j);
    var m := LeftmostMatch(s, 0);
    assert m.Some?;
    assert forall k :: 0 <= k < j ==> s[k] == s[..j][k];
  }

  /**
   * A line as readlines() gives it: a newline can only be its last character.
   */
  predicate ReadLine(line: string) {
    forall i :: 0 <= i < |line| - 1 ==> line[i] != '\n'
  }

  /** Stripping a line as readlines() gives it leaves no newline. */
  lemma StrippedReadLine(line: string)
    requires ReadLine(line)
    ensures '\n' !in Trim(line)
  {
    var w1, w2 := TrimMargins(line);
    var t := Trim(line);
    assert IsSpace('\n');
    forall k | 0 <= k < |t|
      ensures t[k] != '\n'
    {
      assert t[k] == line[|w1| + k];
      if |w1| + k == |line| - 1 {
        assert k == |t| - 1;
      }
    }
  }

  /** An info line contributes a stat exactly when it contains a colon. */
  lemma ParseInfoLineIffColon(line: string)
    requires ReadLine(line)
    ensures ParseInfoLine(line).Some? <==> ':' in line
  {
    ColonIsNotSpace();
    TrimKeeps(line, ':');
    var t := Trim(line);
    if ':' in t {
      StrippedReadLine(line);
      var j := FirstOccurrence(t, ':');
      MatchGroupsAtFirstColon(t, j);
    } else {
      MatchGroupsNoColon(t);
    }
  }

  /** Whatever the line, a stat needs a colon. */
  lemma ParseInfoLineNeedsColon(line: string)
    ensures ParseInfoLine(line).Some? ==> ':' in line
  {
    ColonIsNotSpace();
    TrimKeeps(line, ':');
    if ':' !in Trim(line) {
      MatchGroupsNoColon(Trim(line));
    }
  }

  /**
   * The stat of a line: the renamed text before the first colon of the stripped line, and
   * the text after it without leading whitespace.
   */
  lemma DisplayStatAtFirstColon(line: string, j: nat)
    requires ReadLine(line)
    requires j < |Trim(line)| && Trim(line)[j] == ':' && ':' !in Trim(line)[..j]
    ensures DisplayStat(line) == Some((Rename(Trim(line)[..j]), TrimLeft(Trim(line)[j + 1..])))
  {
    StrippedReadLine(line);
    MatchGroupsAtFirstColon(Trim(line), j);
  }

  /**
   * A line written as `<key>: <value>` and a newline yields the stat (Rename(key), value),
   * provided the key starts with no whitespace and holds no colon, and the value neither
   * starts nor ends with whitespace. Whitespace at the end of the key stays in the label.
   */
  lemma KeyValueLine(key: string, value: string)
    requires key != [] && !IsSpace(key[0]) && ':' !in key && '\n' !in key
    requires value != [] && Tight(value) && '\n' !in value
    ensures DisplayStat(key + ": " + value + "\n") == Some((Rename(key), value))
  {
    var t := key + ": " + value;
    var line := t + "\n";
    var j := |key|;
    assert Trim(line) == t && ReadLine(line) by {
      KeyValueLineShape(key, value);
    }
    assert t[..j] == key && t[j] == ':';
    assert TrimLeft(t[j + 1..]) == value by {
      assert t[j + 1..] == " " + value;
      assert AllSpace(" ");
      TrimLeftOfPadded(" ", value);
    }
    DisplayStatAtFirstColon(line, j);
  }

  /**
   * A space before the colon stays in the label, and no raw label ends with a space, so
   * `<key> : <value>` keeps its label as written (with the space) and is never renamed.
   */
  lemma SpaceBeforeColonKeepsLabel(key: string, value: string)
    requires key != [] && !IsSpace(key[0]) && ':' !in key && '\n' !in key
    requires value != [] && Tight(value) && '\n' !in value
    ensures DisplayStat(key + " : " + value + "\n") == Some((key + " ", value))
  {
    var spaced := key + " ";
    assert spaced[0] == key[0];
    assert key + " : " + value + "\n" == spaced + ": " + value + "\n";
    KeyValueLine(spaced, value);
    forall k | 0 <= k < |RawLabels|
      ensures RawLabels[k] != spaced
    {
      assert RawLabels[k][|RawLabels[k]| - 1] != ' ';
    }
    RenameTable(spaced);
  }

  /** Such a line strips to `<key>: <value>`, and its only newline is its last character. */
  lemma KeyValueLineShape(key: string, value: string)
    requires key != [] && !IsSpace(key[0]) && '\n' !in key
    requires value != [] && Tight(value) && '\n' !in value
    ensures Trim(key + ": " + value + "\n") == key + ": " + value
    ensures ReadLine(key + ": " + value + "\n")
  {
    var t := key + ": " + value;
    var line := t + "\n";
    assert t[0] == key[0] && t[|t| - 1] == value[|value| - 1];
    assert AllSpace("\n") && AllSpace([]);
    assert line == [] + t + "\n";
    TrimOfPadded([], t, "\n");
    forall i | 0 <= i < |line| - 1
      ensures line[i] != '\n'
    {
      if i < |key| {
        assert line[i] == key[i];
      } else if i >= |key| + 2 {
        assert line[i] == value[i - |key| - 2];
      }
    }
  }

  /**
   * The stats follow the file's line order: the k-th stat comes from the k-th contributing
   * line, contributing lines are taken in increasing order, and none is skipped.
   */
  lemma InfoStatsFollowLines(lines: seq<string>)
    ensures var idx := KeptIndices(lines, DisplayStat);
      |InfoStats(lines)| == |idx| <= |lines| &&
      (forall k :: 0 <= k < |idx| ==> InfoStats(lines)[k] == DisplayStat(lines[idx[k]]).value) &&
      (forall k, l :: 0 <= k < l < |idx| ==> idx[k] < idx[l]) &&
      (forall i :: 0 <= i < |lines| && DisplayStat(lines[i]).Some? ==> i in idx)
  {
    KeptFollowsInput(lines, DisplayStat);
  }
}
