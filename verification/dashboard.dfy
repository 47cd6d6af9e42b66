/**
 * What the three tabs of the dashboard select for display: the global stat cards
 * (app.py lines 72-83), the matched pair under the slider (lines 86-136) and the
 * unmatched neuron under each category's slider (lines 138-154).
 */
module Dashboard {
  import opened Wrappers
  import opened Strings
  import opened Sorting
  import opened Filtering
  import opened Catalogue
  import opened PairInfo

  // ----- Global statistics tab -----

  /** The summary keys shown as cards, in the order the cards appear. */
  const CardLabels: seq<string> :=
    ["Algo1 neurons", "Algo2 neurons", "Total comparisons", "Matched pairs", "Average match score"]

  /** A stat card: the summary value, and the title shown under it. */
  datatype Card = Card(value: string, title: string)

  /** The card title: the summary key with Algo1 and then Algo2 replaced by the sorters' names. */
  function Title(key: string): string {
    Replace(Replace(key, "Algo1", "Kilosort4"), "Algo2", "Jim's")
  }

  /** The card one key contributes: one exactly when the summary holds that key. */
  function CardOf(summary: map<string, string>): string -> Option<Card> {
    key => if key in summary then Some(Card(summary[key], Title(key))) else None
  }

  /** The cards of the global statistics tab. */
  function CardsOf(summary: map<string, string>): seq<Card> {
    Kept(CardLabels, CardOf(summary))
  }

  /** The loop that lays out the stat cards, one per summary key present. */
  method GlobalCards(summary: map<string, string>) returns (cards: seq<Card>)
    ensures cards == CardsOf(summary)
  {
    cards := [];
    for i := 0 to |CardLabels|
      invariant cards == Kept(CardLabels[..i], CardOf(summary))
    {
      var key := CardLabels[i];
      if key in summary {
        var title := Title(key);
        cards := cards + [Card(summary[key], title)];
      }
      KeptStep(CardLabels, CardOf(summary), i);
    }
    assert CardLabels[..|CardLabels|] == CardLabels;
  }

  /**
   * At most five cards, in the fixed key order: the k-th card belongs to the k-th key of
   * CardLabels that the summary holds, carries that key's value and title, and no present
   * key is skipped.
   */
  lemma CardsFollowLabels(summary: map<string, string>)
    ensures var idx := KeptIndices(CardLabels, CardOf(summary));
      |CardsOf(summary)| == |idx| <= 5 &&
      (forall k, l :: 0 <= k < l < |idx| ==> idx[k] < idx[l]) &&
      (forall k :: 0 <= k < |idx| ==>
        CardLabels[idx[k]] in summary &&
        CardsOf(summary)[k] == Card(summary[CardLabels[idx[k]]], Title(CardLabels[idx[k]]))) &&
      (forall i :: 0 <= i < |CardLabels| && CardLabels[i] in summary ==> i in idx)
  {
    KeptFollowsInput(CardLabels, CardOf(summary));
  }

  /** Without a summary file there is nothing to show on the global statistics tab. */
  lemma NoSummaryNoCards()
    ensures CardsOf(map[]) == []
  {
    var none: map<string, string> := map[];
    KeptNone(CardLabels, CardOf(none));
  }

  /** The card titles, position by position with CardLabels. */
  const CardTitlesShown: seq<string> :=
    ["Kilosort4 neurons", "Jim's neurons", "Total comparisons", "Matched pairs", "Average match score"]

  /** The five titles: Algo1 reads Kilosort4, Algo2 reads Jim's, the rest are unchanged. */
  lemma CardTitles(k: nat)
    requires k < |CardLabels|
    ensures Title(CardLabels[k]) == CardTitlesShown[k]
  {
    if k == 0 {
      TitleOfAlgo1(CardLabels[0], " neurons", CardTitlesShown[0]);
    } else if k == 1 {
      TitleOfAlgo2(CardLabels[1], " neurons", CardTitlesShown[1]);
    } else if k == 4 {
      TitleOfAverage(CardLabels[4]);
    } else {
      TitleWithoutA(CardLabels[k]);
    }
  }

  lemma TitleOfAlgo1(key: string, rest: string, title: string)
    requires 'A' !in rest && key == "Algo1" + rest && title == "Kilosort4" + rest
    ensures Title(key) == title
  {
    assert "Algo1" + rest == [] + "Algo1" + rest;
    NoEarlyOccurrence([], "Algo1" + rest, "Algo1");
    ReplaceFirstOccurrence([], rest, "Algo1", "Kilosort4");
    ReplaceWithoutLead(rest, "Algo1", "Kilosort4");
    ReplaceWithoutLead("Kilosort4" + rest, "Algo2", "Jim's");
  }

  lemma TitleOfAlgo2(key: string, rest: string, title: string)
    requires 'A' !in rest && key == "Algo2" + rest && title == "Jim's" + rest
    ensures Title(key) == title
  {
    assert !OccursAt("Algo2" + rest, "Algo1", 0);
    NoEarlyOccurrence("lgo2" + rest, [], "Algo1");
    forall i | 0 <= i < |"Algo2" + rest|
      ensures !OccursAt("Algo2" + rest, "Algo1", i)
    {
      if i > 0 {
        OccursShift("Algo2" + rest, "Algo1", i - 1);
        assert ("Algo2" + rest)[1..] == "lgo2" + rest + [];
      }
    }
    ReplaceAbsent("Algo2" + rest, "Algo1", "Kilosort4");
    assert "Algo2" + rest == [] + "Algo2" + rest;
    ReplaceFirstOccurrence([], rest, "Algo2", "Jim's");
    ReplaceWithoutLead(rest, "Algo2", "Jim's");
  }

  lemma TitleWithoutA(key: string)
    requires 'A' !in key
    ensures Title(key) == key
  {
    ReplaceWithoutLead(key, "Algo1", "Kilosort4");
    ReplaceWithoutLead(key, "Algo2", "Jim's");
  }

  /**
   * "Average match score" keeps its title. The label is a parameter fixed by `requires`,
   * because stating it as a literal makes the verifier unfold Title on it, which is costly.
   */
  lemma TitleOfAverage(key: string)
    requires key == "Average match score"
    ensures Title(key) == key
  {
    assert key[1] == 'v';
    assert 'A' !in key[1..];
    NoAlgoAfterA(key, "Algo1", "Kilosort4");
    NoAlgoAfterA(key, "Algo2", "Jim's");
  }

  /** A string whose only A is its first character, followed by v, holds no Algo pattern. */
  lemma NoAlgoAfterA(s: string, pat: string, rep: string)
    requires |pat| >= 2 && pat[0] == 'A' && pat[1] == 'l'
    requires |s| >= 2 && s[1] == 'v' && 'A' !in s[1..]
    ensures Replace(s, pat, rep) == s
  {
    assert !OccursAt(s, pat, 0);
    NoEarlyOccurrence(s[1..], [], pat);
    forall i | 0 <= i < |s|
      ensures !OccursAt(s, pat, i)
    {
      if i > 0 {
        OccursShift(s, pat, i - 1);
        assert s[1..] + [] == s[1..];
      }
    }
    ReplaceAbsent(s, pat, rep);
  }

  // ----- Sliders -----

  /**
   * The index selected by a slider over n items that the user moved to pos (0 when
   * untouched): the widget keeps it within [0, n - 1], and with no items there is no slider
   * and no selection.
   */
  function SliderIndex(n: nat, pos: int): (r: Option<nat>)
    ensures r.None? <==> n == 0
    ensures r.Some? ==> r.value < n
    ensures 0 <= pos < n ==> r == Some(pos)
  {
    if n == 0 then None
    else if pos < 0 then Some(0)
    else if pos >= n then Some(n - 1)
    else Some(pos)
  }

  // ----- Matched neurons tab -----

  /**
   * What the matched tab holds: the placeholder when there are no pairs; otherwise the
   * selected pair's stats and its plot files, or, when the pair has no algo2 file, its stats
   * and its algo1 file. The page draws these only when the selected pair has at least one
   * stat; then a missing algo2 file makes the lookup of the algo2 file fail with a KeyError.
   */
  datatype MatchedView =
    | NoPairs
    | Shown(base: string, stats: seq<(string, string)>, algo1: string, algo2: string)
    | MissingAlgo2(base: string, stats: seq<(string, string)>, algo1: string)

  /**
   * The matched pair under the slider at pos, with the lines of each info file given by
   * readLines.
   */
  function SelectMatched(c: Catalogue, pos: int, readLines: string -> seq<string>): (v: MatchedView)
    requires Valid(c)
    ensures v.NoPairs? <==> c.order == []
    ensures !v.NoPairs? ==> v.base in c.order && v.base in c.pairs && v.algo1 == c.pairs[v.base].algo1
    ensures !v.NoPairs? ==> (v.Shown? <==> c.pairs[v.base].algo2.Some?)
    ensures v.Shown? ==> v.algo2 == c.pairs[v.base].algo2.value
    ensures !v.NoPairs? && c.pairs[v.base].info.None? ==> v.stats == []
    ensures !v.NoPairs? && c.pairs[v.base].info.Some? ==>
      v.stats == InfoStats(readLines(c.pairs[v.base].info.value))
    ensures 0 <= pos < |c.order| ==> v.base == c.order[pos]
  {
    var idx := SliderIndex(|c.order|, pos);
    if idx.None? then NoPairs
    else
      var base := c.order[idx.value];
      var pair := c.pairs[base];
      var stats := if pair.info.Some? then InfoStats(readLines(pair.info.value)) else [];
      if pair.algo2.Some? then Shown(base, stats, pair.algo1, pair.algo2.value)
      else MissingAlgo2(base, stats, pair.algo1)
  }

  // ----- Unmatched neurons tab -----

  /** The neuron id in a caption: the last `_`-separated token of the file's stem. */
  function NeuronId(name: string): (id: string)
    ensures '_' !in id
    ensures |id| <= |Stem(name)| && id == Stem(name)[|Stem(name)| - |id|..]
    ensures |id| < |Stem(name)| ==> Stem(name)[|Stem(name)| - |id| - 1] == '_'
  {
    AfterLast(Stem(name), '_')
  }

  /** A stem without an underscore is its own neuron id. */
  lemma NeuronIdWithoutUnderscore(name: string)
    requires '_' !in Stem(name)
    ensures NeuronId(name) == Stem(name)
  {
    AfterLastNoSeparator(Stem(name), '_');
  }

  /** What one unmatched column shows: nothing, or a file and its caption. */
  datatype UnmatchedView = Hidden | Showing(file: string, caption: string)

  /**
   * The unmatched column for one category: the files are sorted by name and the slider at
   * pos picks one, captioned with the category and the neuron id.
   */
  function SelectUnmatched(category: string, scanned: seq<string>, pos: int): (v: UnmatchedView)
    ensures v.Hidden? <==> scanned == []
    ensures v.Showing? ==> v.file in scanned && v.caption == category + " - Neuron " + NeuronId(v.file)
    ensures 0 <= pos < |scanned| ==> v.Showing? && v.file == SortNames(scanned)[pos]
  {
    var files := SortNames(scanned);
    var idx := SliderIndex(|files|, pos);
    if idx.None? then Hidden
    else
      var file := files[idx.value];
      assert file in multiset(scanned) by {
        assert file in multiset(files);
      }
      Showing(file, category + " - Neuron " + NeuronId(file))
  }

  /** The column depends on which files were found, not on the order the directory listed them. */
  lemma UnmatchedIgnoresScanOrder(category: string, s: seq<string>, t: seq<string>, pos: int)
    requires multiset(s) == multiset(t)
    ensures SelectUnmatched(category, s, pos) == SelectUnmatched(category, t, pos)
  {
    SortNamesIgnoresScanOrder(s, t);
  }

  /** The files a slider position reaches are in name order. */
  lemma UnmatchedInNameOrder(category: string, scanned: seq<string>, p: int, q: int)
    requires 0 <= p <= q < |scanned|
    ensures LexLe(SelectUnmatched(category, scanned, p).file, SelectUnmatched(category, scanned, q).file)
  {
    var files := SortNames(scanned);
    assert SelectUnmatched(category, scanned, p).file == files[p];
    assert SelectUnmatched(category, scanned, q).file == files[q];
    if p < q {
      assert LexLe(files[p], files[q]);
    } else {
      LexLeRefl(files[p]);
    }
  }
}
