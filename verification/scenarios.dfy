/**
 * Worked examples of the model on small directories.
 */
module Scenarios {
  import opened Wrappers
  import opened Strings
  import opened Catalogue
  import opened PairInfo
  import opened Dashboard
  import opened Sorting
  import opened Filtering

  // Several examples take their literal input as a parameter fixed by a `requires` clause.
  // Written directly, the literal makes the verifier unfold every function applied to it,
  // which costs far more than reasoning about a parameter that equals it.

  // ----- Info lines -----

  /** `Match score: 0.92` read from an info file becomes the stat (Match Score, 0.92). */
  lemma MatchScoreLine(line: string)
    requires line == "Match score: 0.92\n"
    ensures DisplayStat(line) == Some(("Match Score", "0.92"))
  {
    assert line == "Match score" + ": " + "0.92" + "\n";
    KeyValueLine("Match score", "0.92");
  }

  // ----- Matched pairs -----

  /** The base id of a conventionally named file whose base has no underscore. */
  lemma ConventionalBase(kind: Kind, name: string, b: string, ext: string)
    requires '_' !in b && ext != [] && '.' !in ext
    requires name == b + Token(kind) + "." + ext
    ensures BaseId(kind, name) == b
  {
    NoEarlyOccurrence(b, Token(kind), Token(kind));
    BaseIdOfConventionalName(kind, b, ext);
  }

  /** The three files of neuron1 all have base id neuron1. */
  lemma Neuron1Algo1Base()
    ensures BaseId(Algo1, "neuron1_algo1.html") == "neuron1"
  {
    ConventionalBase(Algo1, "neuron1_algo1.html", "neuron1", "html");
  }

  lemma Neuron1Algo2Base()
    ensures BaseId(Algo2, "neuron1_algo2.html") == "neuron1"
  {
    ConventionalBase(Algo2, "neuron1_algo2.html", "neuron1", "html");
  }

  lemma Neuron1InfoBase()
    ensures BaseId(Info, "neuron1_info.txt") == "neuron1"
  {
    ConventionalBase(Info, "neuron1_info.txt", "neuron1", "txt");
  }

  /** A directory holding one file of each kind, all with base id b, gives one complete pair. */
  lemma OneOfEach(x1: string, x2: string, x3: string, b: string)
    requires BaseId(Algo1, x1) == b && BaseId(Algo2, x2) == b && BaseId(Info, x3) == b
    ensures Build([x1], [x2], [x3]) == Catalogue([b], map[b := Pair(x1, Some(x2), Some(x3))])
  {
    FirstFile(x1, b);
    SecondFile(x1, x2, b);
    ThirdFile(x1, x2, x3, b);
  }

  /** The algo1 scan of a single file creates the one entry of its base. */
  lemma FirstFile(x1: string, b: string)
    requires BaseId(Algo1, x1) == b
    ensures Scan(Empty, Algo1, [x1]) == Catalogue([b], map[b := Pair(x1, None, None)])
  {
    assert [x1][..0] == [];
    assert Record(Empty, Algo1, x1) == Catalogue([] + [b], map[][b := Pair(x1, None, None)]);
  }

  /** The algo2 scan of a single file with the same base attaches it to that entry. */
  lemma SecondFile(x1: string, x2: string, b: string)
    requires BaseId(Algo2, x2) == b
    ensures Scan(Catalogue([b], map[b := Pair(x1, None, None)]), Algo2, [x2]) ==
      Catalogue([b], map[b := Pair(x1, Some(x2), None)])
  {
    var c := Catalogue([b], map[b := Pair(x1, None, None)]);
    assert [x2][..0] == [];
    assert c.pairs[b := c.pairs[b].(algo2 := Some(x2))] == map[b := Pair(x1, Some(x2), None)];
  }

  /** The info scan of a single file with the same base attaches it to that entry. */
  lemma ThirdFile(x1: string, x2: string, x3: string, b: string)
    requires BaseId(Info, x3) == b
    ensures Scan(Catalogue([b], map[b := Pair(x1, Some(x2), None)]), Info, [x3]) ==
      Catalogue([b], map[b := Pair(x1, Some(x2), Some(x3))])
  {
    var c := Catalogue([b], map[b := Pair(x1, Some(x2), None)]);
    assert [x3][..0] == [];
    assert c.pairs[b := c.pairs[b].(info := Some(x3))] == map[b := Pair(x1, Some(x2), Some(x3))];
  }

  /**
   * With neuron1's three files and an info line `Match score: 0.92`, the matched tab shows
   * the single pair, the stat (Match Score, 0.92) and both plots.
   */
  lemma OnePairScenario(readLines: string -> seq<string>)
    requires readLines("neuron1_info.txt") == ["Match score: 0.92\n"]
    ensures var c := Build(["neuron1_algo1.html"], ["neuron1_algo2.html"], ["neuron1_info.txt"]);
      Valid(c) &&
      SelectMatched(c, 0, readLines) ==
        Shown("neuron1", [("Match Score", "0.92")], "neuron1_algo1.html", "neuron1_algo2.html")
  {
    Neuron1Algo1Base();
    Neuron1Algo2Base();
    Neuron1InfoBase();
    OnePairShown("neuron1_algo1.html", "neuron1_algo2.html", "neuron1_info.txt", "neuron1", readLines);
    MatchScoreLine("Match score: 0.92\n");
    OneLineStats("Match score: 0.92\n", ("Match Score", "0.92"));
  }

  /** A directory with one file of each kind shows that pair, with the stats of its info file. */
  lemma OnePairShown(x1: string, x2: string, x3: string, b: string, readLines: string -> seq<string>)
    requires BaseId(Algo1, x1) == b && BaseId(Algo2, x2) == b && BaseId(Info, x3) == b
    ensures Valid(Build([x1], [x2], [x3]))
    ensures SelectMatched(Build([x1], [x2], [x3]), 0, readLines) == Shown(b, InfoStats(readLines(x3)), x1, x2)
  {
    OneOfEach(x1, x2, x3, b);
  }

  /** An info file of one line shows that line's stat alone. */
  lemma OneLineStats(line: string, stat: (string, string))
    requires DisplayStat(line) == Some(stat)
    ensures InfoStats([line]) == [stat]
  {
    KeptStep([line], DisplayStat, 0);
    assert [line][..0] == [] && [line][..1] == [line];
  }

  /** Without algo1 files there are no pairs, whatever the other two scans find. */
  lemma NoAlgo1NoPairs(algo2Files: seq<string>, infoFiles: seq<string>, pos: int, readLines: string -> seq<string>)
    ensures Valid(Build([], algo2Files, infoFiles))
    ensures SelectMatched(Build([], algo2Files, infoFiles), pos, readLines) == NoPairs
  {
    BuildValid([], algo2Files, infoFiles);
    BuildOrder([], algo2Files, infoFiles);
  }

  /**
   * With algo1 files but no algo2 file, every pair the slider can select fails at the
   * algo2 lookup.
   */
  lemma NoAlgo2FilesFails(algo1Files: seq<string>, infoFiles: seq<string>, pos: int, readLines: string -> seq<string>)
    requires algo1Files != []
    ensures Valid(Build(algo1Files, [], infoFiles))
    ensures SelectMatched(Build(algo1Files, [], infoFiles), pos, readLines).MissingAlgo2?
  {
    var c := Build(algo1Files, [], infoFiles);
    BuildValid(algo1Files, [], infoFiles);
    BuildOrder(algo1Files, [], infoFiles);
    var bases := Bases(Algo1, algo1Files);
    FirstSeenSpec(bases);
    assert bases[0] in c.order;
    var v := SelectMatched(c, pos, readLines);
    BuildEntry(algo1Files, [], infoFiles, v.base);
  }

  // ----- Unmatched neurons -----

  /**
   * Unmatched files are in name order, not numeric order: of unit_7 and unit_12 the slider
   * starts at unit_12, captioned with neuron id 12.
   */
  lemma UnmatchedExample(category: string, scanned: seq<string>)
    requires scanned == ["unit_7.html", "unit_12.html"]
    ensures SelectUnmatched(category, scanned, 0) == Showing("unit_12.html", category + " - Neuron " + "12")
  {
    var x, y := scanned[0], scanned[1];
    assert y[..5] == x[..5] && y[5] < x[5];
    LexLeAtFirstDifference(y, x, 5);
    UnmatchedFirst(category, x, y);
    UnitTwelveId(y);
  }

  /** Of two files listed out of order, the slider starts at the one that sorts first. */
  lemma UnmatchedFirst(category: string, x: string, y: string)
    requires LexLe(y, x) && x != y
    ensures SelectUnmatched(category, [x, y], 0) == Showing(y, category + " - Neuron " + NeuronId(y))
  {
    SortTwo(x, y);
  }

  /** Two distinct names come out of sorted(...) smaller first. */
  lemma SortTwo(x: string, y: string)
    requires LexLe(y, x) && x != y
    ensures SortNames([x, y]) == [y, x]
  {
    assert Sorted([y, x]);
    assert multiset([y, x]) == multiset([x, y]);
    SortedUnique(SortNames([x, y]), [y, x]);
  }

  /** `unit_12.html` is neuron 12. */
  lemma UnitTwelveId(name: string)
    requires name == "unit_12.html"
    ensures NeuronId(name) == "12"
  {
    assert name == "unit_12" + "." + "html";
    StemOfSuffixed("unit_12", "html");
    var stem := "unit_12";
    AfterLastAt(stem, '_', 4);
    assert stem[5..] == "12";
  }
}
