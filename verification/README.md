# Neuron comparison dashboard — Dafny model

The dashboard (`app.py`) is a Streamlit page. It compares neurons sorted by two spike-sorting
algorithms: "Algo1" is shown as Kilosort4 and "Algo2" as Jim's. This project models the logic
behind the page. The widgets and the markup are not modelled.

- **Global statistics.** `global_summary.txt` is read into a key/value table. Every line that
  holds a colon is cut at its first colon, and both halves are stripped. A later line with the
  same key overwrites an earlier one. Five fixed statistics are shown as cards, in a fixed
  order, when present. Each card's title has "Algo1" rewritten to "Kilosort4" and "Algo2" to
  "Jim's".
- **Matched pairs catalogue.** Three directory scans build a dictionary keyed by a base id:
  `*_algo1.html`, then `*_algo2.html`, then `*_info.txt`. The base id is the file stem with
  every occurrence of the kind's token deleted. Only the algo1 scan creates entries. The algo2
  and info scans attach a file name to an entry that already exists; the last file scanned for
  a base wins. Pairs keep the order in which the algo1 scan first saw their base.
- **Matched view.** A slider position selects a pair. The pair's info file, when there is one,
  is parsed line by line with the pattern `^(.*?):\s*(.*)$` on the stripped line. Six raw labels
  are renamed to display labels. When the selected pair has at least one stat but no algo2
  file, the page fails: the code indexes the missing `"algo2"` key.
- **Unmatched views.** The HTML files of an unmatched folder are listed in name order. A slider
  picks one, and the caption shows the category and the neuron id. The id is the part of the
  file stem after its last underscore.

Files and modules:
- `wrappers.dfy`: `Option`.
- `strings.dfy`: Python's whitespace set, `strip`, `split(c, 1)`, `replace`, `split('_')[-1]`
  and pathlib's `stem`.
- `sorting.dfy`: Python's string order and `sorted`.
- `filtering.dfy`: the "append what each element yields" loop shape.
- `summary.dfy`: the global statistics table.
- `catalogue.dfy`: the matched pairs dictionary.
- `pair_info.dfy`: the info-file statistics.
- `dashboard.dfy`: the cards, the sliders and the two views.
- `scenarios.dfy`: concrete inputs worked through the model.

The loops that fill a dictionary or a list are methods: `LoadSummary`, `ScanDirectory`,
`BuildCatalogue`, `ParseInfo` and `GlobalCards`. Each is proved equal to a left-fold
specification function, and the properties are proved about those functions. The one-line
expressions of the source are functions.

Two behaviours of `app.py` shape the model:
- Only the algo1 scan creates entries (app.py:57-59). So an info file attaches only to a base
  that some algo1 file has, even when an algo2 file has the same base.
- When the selected pair has at least one stat but no algo2 file, the lookup at app.py:134
  raises a `KeyError`; the pair is not skipped. The model returns the explicit outcome
  `MissingAlgo2`.

## Model

| member | source | states |
|---|---|---|
| Summary.LineEntry | app.py:51-53 | no contract: None for a line without a colon, else the stripped halves of `split(":", 1)` of the stripped line; characterised by LineEntryIffColon and LineEntryAtFirstColon |
| Summary.LineEntries | app.py:50-53 | One entry per line of the file, in file order, each the entry of that line |
| Summary.TableOf | app.py:53 | no contract: the dictionary after storing each present entry in turn, a later store overwriting an earlier one; characterised by TableKeys and TableLastWins |
| Summary.SummaryOf | app.py:48-53 | no contract: TableOf(LineEntries(lines)); characterised by SummaryKeys and SummaryLastWins, and LoadSummary is proved equal to it |
| Summary.LoadSummary | app.py:46-53 | A missing summary file gives the empty table; otherwise the loop's table is the fold of the line entries in file order |
| Summary.LineEntryIffColon | app.py:51-52 | A summary line contributes an entry exactly when it contains a colon |
| Summary.LineEntryAtFirstColon | app.py:52-53 | The key is the stripped text before the first colon and the value the stripped text after it |
| Summary.SummaryKeys | app.py:50-53 | The table holds exactly the keys of the lines that yield an entry |
| Summary.SummaryLastWins | app.py:53 | For a repeated key, the value stored is that of the last line carrying the key |
| Summary.TableKeys | app.py:53 | Key membership after a sequence of dictionary stores: some store carried the key |
| Summary.TableLastWins | app.py:53 | After a sequence of dictionary stores, a key holds the value of its last store |
| Catalogue.Token | app.py:58-65 | no contract: the token each scan deletes, `_algo1`, `_algo2` or `_info`; used by BaseId |
| Catalogue.BaseId | app.py:58-65 | no contract: Replace(Stem(name), Token(kind), ""); characterised by BaseIdOfConventionalName and BaseIdRemovesEveryOccurrence |
| Catalogue.Record | app.py:57-67 | no contract: one loop body; an algo1 file creates or replaces its base's entry (appending the base to the key order when new), an algo2 or info file sets that field only when the base exists; characterised by RecordAttach |
| Catalogue.Scan | app.py:57-67 | no contract: Record applied to each file in scan order; characterised by ScanAlgo1Entry, ScanAttachEntry and ScanAlgo1Order, and ScanDirectory is proved equal to it |
| Catalogue.Build | app.py:56-67 | no contract: the algo1, algo2 and info scans in that order from the empty dictionary; characterised by BuildEntry, BuildValid and BuildOrder |
| Catalogue.Bases | app.py:57-67 | The base id of every scanned file, in scan order, one per file |
| Filtering.Each | app.py:57-67 | Mapping a function over a sequence keeps its length and applies the function at every position (used for the base ids of a scan) |
| Filtering.LastIndexOf | app.py:58-67 | The last position holding an element, and none exactly when the element is absent; gives the `rfind('.')` in Stem and the surviving dictionary write in LastFile |
| Filtering.LastIndexOfStep | app.py:58-67 | Appending an element makes it its own last position and leaves every other element's last position unchanged |
| Catalogue.LastFile | app.py:57-67 | no contract: the file at LastIndexOf of the base in Bases, or none; characterised by LastFileStep, ScanAlgo1Entry and ScanAttachEntry |
| Catalogue.Attached | app.py:62-67 | no contract: a pair with the algo2 or info field set to the given file when there is one; used by ScanAttachEntry and BuildEntry |
| Catalogue.FirstSeen | app.py:57-59 | no contract: the bases in order of first appearance; characterised by FirstSeenSpec and FirstSeenOrder |
| Catalogue.ScanDirectory | app.py:57-67 | One scan loop over the file names leaves the catalogue that the scan specification gives |
| Catalogue.BuildCatalogue | app.py:56-67 | The three scans in order (algo1, algo2, info) build the specified catalogue |
| Catalogue.BaseIdOfConventionalName | app.py:58-65 | For a name `<b><token>.<ext>` whose base does not contain the token, the base id is `<b>` |
| Catalogue.BaseIdRemovesEveryOccurrence | app.py:58 | `replace` deletes every occurrence of the token, not only the suffix: `x_algo1y_algo1.html` has base `xy` |
| Catalogue.BaseIdExample | app.py:58 | `a_algo1b_algo1.html` has base `ab` |
| Catalogue.ScanAlgo1Entry | app.py:57-59 | After the algo1 scan, a base has an entry exactly when some algo1 file has it, and the entry names the last such file |
| Catalogue.ScanAttachEntry | app.py:60-67 | An algo2 or info scan keeps the set of bases and their order, and sets each existing entry's field to the last file of that base, if any |
| Catalogue.LastFileStep | app.py:60-67 | One more scanned file either becomes its base's last file or leaves the last file unchanged |
| Catalogue.RecordAttach | app.py:62-67 | Recording an algo2 or info file only changes the entry of its own base, and only when that entry exists |
| Catalogue.BuildEntry | app.py:56-67 | A base is catalogued exactly when some algo1 file has it; its algo1, algo2 and info fields are the last file of each scan with that base |
| Catalogue.ScanAlgo1Valid | app.py:56-59 | The algo1 scan lists each catalogued base exactly once in its order |
| Catalogue.BuildValid | app.py:56-67 | The built catalogue's order lists each of its bases exactly once |
| Catalogue.FirstSeenSpec | app.py:59 | Insertion order has no repeats and holds exactly the bases seen |
| Catalogue.FirstSeenOrder | app.py:59 | A base listed earlier in insertion order was first seen earlier in the scan |
| Catalogue.ScanAlgo1Order | app.py:57-59 | The dictionary's key order is the order in which algo1 bases are first seen |
| Catalogue.BuildOrder | app.py:56-67 | The key order listed at app.py:89 is the first-seen order of the algo1 bases; later scans do not change it |
| PairInfo.ColonMatchAt | app.py:100 | no contract: a colon at m, no newline before it and none in the rest after the `\s*` skip; the acceptance test of `^(.*?):\s*(.*)$` at m, used by LeftmostMatch |
| PairInfo.LeftmostMatch | app.py:100 | The match position is a colon that the pattern accepts, and no earlier position is accepted (the lazy group) |
| PairInfo.MatchGroups | app.py:100-102 | no contract: the text before the leftmost accepted colon and the rest after it with leading whitespace skipped, or none; characterised by MatchGroupsNoColon and MatchGroupsAtFirstColon |
| PairInfo.ParseInfoLine | app.py:100-102 | no contract: MatchGroups of the stripped line; characterised by ParseInfoLineIffColon and ParseInfoLineNeedsColon |
| PairInfo.Rename | app.py:105-116 | no contract: the six-way label-cleaning chain; characterised by RenameTable and RenameIdempotent |
| PairInfo.DisplayStat | app.py:99-118 | no contract: the renamed label and value of a matching line, or none; characterised by DisplayStatAtFirstColon, KeyValueLine and SpaceBeforeColonKeepsLabel |
| PairInfo.InfoStats | app.py:99-118 | no contract: Kept(lines, DisplayStat); characterised by InfoStatsFollowLines, and ParseInfo is proved equal to it |
| PairInfo.ParseInfo | app.py:95-118 | The stats loop appends, in line order, the renamed label and value of every matching line |
| PairInfo.MatchGroupsNoColon | app.py:100-101 | Without a colon the pattern does not match |
| PairInfo.MatchGroupsAtFirstColon | app.py:100-102 | On a text without a newline, the groups are the text before the first colon and the rest after it with leading whitespace skipped |
| PairInfo.StrippedReadLine | app.py:98-100 | A line as `readlines` returns it contains no newline once stripped |
| PairInfo.ParseInfoLineIffColon | app.py:98-101 | A line read from the info file matches exactly when it contains a colon |
| PairInfo.ParseInfoLineNeedsColon | app.py:100-101 | Any line that matches contains a colon |
| PairInfo.DisplayStatAtFirstColon | app.py:100-118 | A line's stat is the renamed text before its first colon and the text after it with leading whitespace skipped |
| PairInfo.KeyValueLineShape | app.py:98-100 | A `key: value` line with a newline is a read line and strips to `key: value` |
| PairInfo.KeyValueLine | app.py:100-118 | A `key: value` line gives the stat (renamed key, value) |
| PairInfo.SpaceBeforeColonKeepsLabel | app.py:100-118 | In a `key : value` line the label keeps the space before the colon, so it is never renamed (e.g. "Match score " stays as is) |
| PairInfo.RenameTable | app.py:105-116 | A label changes exactly when it is one of the six raw labels, and each maps to its display form |
| PairInfo.RenameIdempotent | app.py:105-116 | Renaming a renamed label changes nothing |
| PairInfo.InfoStatsFollowLines | app.py:99-118 | The stats follow the lines in order: the k-th stat comes from the k-th matching line, and there are at most as many stats as lines |
| Filtering.Kept | app.py:76-118 | no contract: the items of the elements that yield one, in order (the append loops of the cards and the stats); characterised by KeptFollowsInput, KeptIndices, KeptNone and KeptStep |
| Filtering.KeptFollowsInput | app.py:76-118 | The append loop keeps input order and emits one item per contributing element |
| Filtering.KeptIndices | app.py:76-118 | The contributing positions are increasing and are exactly those where an item is produced |
| Filtering.KeptNone | app.py:76-77 | When no element yields an item, nothing is appended |
| Filtering.KeptStep | app.py:76-118 | One more element appends exactly what that element yields |
| Dashboard.Title | app.py:78 | no contract: Replace(Replace(key, "Algo1", "Kilosort4"), "Algo2", "Jim's"); characterised by TitleOfAlgo1, TitleOfAlgo2, TitleWithoutA and CardTitles |
| Dashboard.CardOf | app.py:77-82 | no contract: the card of a label, present exactly when the summary holds it; used by CardsOf |
| Dashboard.CardsOf | app.py:76-82 | no contract: Kept(CardLabels, CardOf(summary)); characterised by CardsFollowLabels and NoSummaryNoCards, and GlobalCards is proved equal to it |
| Dashboard.GlobalCards | app.py:75-82 | The card loop emits, in label order, one card per present statistic, carrying its value and rewritten title |
| Dashboard.CardsFollowLabels | app.py:76-82 | At most five cards; the k-th card is the value and title of the k-th present label, in label order |
| Dashboard.NoSummaryNoCards | app.py:76-77 | With an empty summary table, as when there is no summary file, no card is shown |
| Dashboard.CardTitles | app.py:76-78 | The five titles are "Kilosort4 neurons", "Jim's neurons", "Total comparisons", "Matched pairs" and "Average match score" |
| Dashboard.TitleOfAlgo1 | app.py:78 | A key starting with "Algo1" and with no other 'A' is shown with "Kilosort4" in its place |
| Dashboard.TitleOfAlgo2 | app.py:78 | A key starting with "Algo2" and with no other 'A' is shown with "Jim's" in its place |
| Dashboard.TitleWithoutA | app.py:78 | A key without an 'A' is shown unchanged |
| Dashboard.TitleOfAverage | app.py:78 | "Average match score" is shown unchanged |
| Dashboard.NoAlgoAfterA | app.py:78 | A text starting "Av" with no other 'A' contains no "Al…" token, so the rewrite leaves it unchanged |
| Dashboard.SliderIndex | app.py:90-91 | A slider over n items yields an index below n exactly when n > 0; a position in range is the index |
| Dashboard.SelectMatched | app.py:88-134 | No pairs gives the "none found" outcome; otherwise the selected base is catalogued and the view carries its algo1 file and its info stats (none without an info file); it carries algo2 exactly when the pair has one, else it is the missing-algo2 outcome (the KeyError when the selected pair has at least one stat) |
| Dashboard.NeuronId | app.py:148 | The neuron id is the suffix of the stem after its last underscore and contains no underscore |
| Dashboard.NeuronIdWithoutUnderscore | app.py:148 | A stem without an underscore is its own neuron id |
| Dashboard.SelectUnmatched | app.py:142-148 | An empty folder shows nothing; otherwise the shown file is from the folder, at the slider's rank in name order, captioned `<category> - Neuron <id>` |
| Dashboard.UnmatchedIgnoresScanOrder | app.py:143 | The view does not depend on the order in which the folder was listed |
| Dashboard.UnmatchedInNameOrder | app.py:143-147 | Moving the slider right never moves to an earlier name |
| Sorting.LexLe | app.py:143 | no contract: Python's code-point string order (`<=`); characterised by LexLeAtFirstDifference, LexLeTotal, LexLeTransitive and LexLeAntisymmetric |
| Sorting.Sorted | app.py:143 | no contract: every earlier name is LexLe every later one; the promise of SortNames and Insert |
| Sorting.SortNames | app.py:143 | `sorted` returns a sorted permutation of the names |
| Sorting.Insert | app.py:143 | Inserting into a sorted list keeps it sorted and adds exactly that element |
| Sorting.SortedUnique | app.py:143 | Two sorted permutations of the same names are equal |
| Sorting.SortNamesIgnoresScanOrder | app.py:143 | Sorting is independent of the listing order |
| Sorting.LexLeAtFirstDifference | app.py:143 | After a common prefix, the name with the smaller next character sorts first |
| Sorting.LexLeTotal | app.py:143 | Python's string order is total |
| Sorting.LexLeTransitive | app.py:143 | Python's string order is transitive |
| Sorting.LexLeAntisymmetric | app.py:143 | Python's string order is antisymmetric |
| Strings.IsSpace | app.py:52 | no contract: membership in the characters `str.strip()` removes |
| Strings.TrimLeft | app.py:52 | no contract: drops leading whitespace; characterised by TrimLeftSpec |
| Strings.TrimRight | app.py:52 | no contract: drops trailing whitespace; characterised by TrimRightSpec |
| Strings.Trim | app.py:52-53 | no contract: TrimRight(TrimLeft(s)), i.e. `str.strip()`; characterised by TrimMargins, TrimOfPadded and TrimKeeps |
| Strings.TrimLeftSpec | app.py:52 | Left stripping removes exactly a whitespace prefix and stops at a non-whitespace character |
| Strings.TrimRightSpec | app.py:52 | Right stripping removes exactly a whitespace suffix and stops at a non-whitespace character |
| Strings.TrimMargins | app.py:52 | A text is its stripped core between two whitespace margins |
| Strings.TrimOfPadded | app.py:52-53 | Stripping whitespace margins off a tight core gives the core back |
| Strings.TrimKeeps | app.py:51-52 | Stripping keeps every non-whitespace character, so the colon test holds before and after |
| Strings.SplitFirst | app.py:52 | no contract: the text before the first separator and the text after it, or none; characterised by SplitFirstAt and SplitFirstAbsent |
| Strings.SplitFirstAt | app.py:52 | `split(":", 1)` cuts at the first colon |
| Strings.SplitFirstAbsent | app.py:52 | Without the separator there is nothing to split |
| Strings.OccursAt | app.py:58 | no contract: the pattern occurs at position i; used by the Replace lemmas |
| Strings.Replace | app.py:58 | no contract: `str.replace`, rewriting non-overlapping occurrences left to right; characterised by ReplaceAbsent, ReplaceFirstOccurrence, DeleteLeading and DeleteTwoOccurrences |
| Strings.ReplaceAbsent | app.py:58 | `replace` leaves a text without the pattern unchanged |
| Strings.ReplaceFirstOccurrence | app.py:58 | `replace` rewrites the first occurrence and continues after it |
| Strings.DeleteLeading | app.py:58 | Deleting a pattern keeps a prefix that lacks its first character, removes the first occurrence and carries on after it |
| Strings.DeleteTwoOccurrences | app.py:58 | Deleting a pattern that occurs twice removes both occurrences |
| Strings.AfterLast | app.py:148 | `split(sep)[-1]` is the suffix after the last separator and contains none |
| Strings.AfterLastAt | app.py:148 | With the last separator at k, `split(sep)[-1]` is the text after k |
| Strings.AfterLastNoSeparator | app.py:148 | Without a separator, `split(sep)[-1]` is the whole text |
| Strings.Stem | app.py:58 | no contract: the name before its last dot when that dot is neither first nor last, else the whole name (`Path.stem`); characterised by StemOfSuffixed |
| Strings.StemOfSuffixed | app.py:58 | The stem of `<b>.<ext>` is `<b>` when the extension has no dot |
| Scenarios.MatchScoreLine | app.py:100-118 | "Match score: 0.92" is shown as ("Match Score", "0.92") |
| Scenarios.ConventionalBase | app.py:58-65 | A name `<b><token>.<ext>` with no underscore in `<b>` has base `<b>` |
| Scenarios.Neuron1Algo1Base | app.py:58 | `neuron1_algo1.html` has base `neuron1` |
| Scenarios.Neuron1Algo2Base | app.py:61 | `neuron1_algo2.html` has base `neuron1` |
| Scenarios.Neuron1InfoBase | app.py:65 | `neuron1_info.txt` has base `neuron1` |
| Scenarios.OneOfEach | app.py:56-67 | One file of each kind with the same base gives the catalogue with that one base and its complete pair |
| Scenarios.OnePairScenario | app.py:56-134 | A complete pair whose info file holds "Match score: 0.92" is shown with that stat and both plots |
| Scenarios.OnePairShown | app.py:56-134 | One file of each kind with the same base: position 0 selects that pair, and the view carries its info file's stats and both plot files; the page draws them when the selected pair has at least one stat |
| Scenarios.NoAlgo1NoPairs | app.py:56-136 | Without algo1 files there are no pairs, whatever else is on disk |
| Scenarios.NoAlgo2FilesFails | app.py:130-134 | With algo1 files but no algo2 files, every slider position gives the missing-algo2 outcome; the page reaches the KeyError at app.py:134 when the selected pair has at least one stat |
| Scenarios.UnmatchedExample | app.py:143-148 | `unit_7.html` and `unit_12.html`: position 0 shows `unit_12.html` ("1" < "7") as neuron 12 |
| Scenarios.UnmatchedFirst | app.py:143-148 | Of two files listed out of order, slider position 0 shows the one that sorts first, captioned with its neuron id |
| Scenarios.SortTwo | app.py:143 | Two distinct names out of order are swapped by sorting |
| Scenarios.UnitTwelveId | app.py:148 | `unit_12.html` has neuron id 12 |

## Left out

- The Streamlit rendering is not modelled: page configuration, title, CSS, tabs, columns,
  `st.info`, `st.markdown` and the HTML components. The views carry the data they would show.
- The HTML and f-string markup of the cards, stat boxes and captions (app.py:79-82, 124, 148)
  is not modelled. A card is a (value, title) pair, and a caption is its plain text.
- Dashboard.SelectMatched: the call `st.columns(len(stat_data))` at app.py:121 is not modelled.
  With zero stats it raises, before either plot is drawn and before line 134 is reached. Zero
  stats means no info file, or no info line holding a colon. In that case the model still
  returns `Shown` or `MissingAlgo2` with an empty stats list, and neither plot is really shown.
  Either exception (at line 121 or at line 134) also stops the script, so the unmatched tab is
  not drawn. The model treats the tabs independently.
- File system access is not modelled: `exists`, `open`, `readlines`, `read_text` and `glob`.
  - A summary file is an `Option` of its lines.
  - Each scan is an arbitrary sequence of file names, since glob order is unspecified.
  - An info file's lines come from a `readLines` function parameter.
  - HTML contents are not read; the views name the files.
  - Read failures, encodings and newline translation are not modelled.
- Catalogue.BuildCatalogue: the scanned names are taken as given. The model does not check
  that they end in the glob's suffix.
- Dashboard.SliderIndex: the widget's mechanics and keys are not modelled. A position outside
  the slider's range, which the widget never yields, is clamped into it.
- Python's regex engine is not modelled. The pattern is modelled, on a stripped line, by the
  condition its match satisfies, at the lowest position that satisfies it.
- PairInfo.ParseInfoLineIffColon: stated for lines as `readlines` returns them, with a newline
  only at the end. A text with an inner newline can hold a colon that the pattern does not
  match, and `PairInfo.ParseInfoLineNeedsColon` covers that direction alone.
- Path comparison in `sorted` is modelled, on POSIX, as comparing file names by code point.
  All files come from one folder. On Windows, paths compare without regard to case, and that
  order is not modelled.
