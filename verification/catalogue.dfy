/**
 * The matched-pair catalogue (app.py lines 56-67): three directory scans, for
 * `*_algo1.html`, `*_algo2.html` and `*_info.txt`, fill one insertion-ordered dictionary
 * from a base id to the files found for it. Only the first scan creates entries; the other
 * two attach their file to an entry that already exists and drop it otherwise.
 */
module Catalogue {
  import opened Wrappers
  import opened Strings
  import opened Filtering

  /** The three kinds of per-pair artifact, told apart by a token in the file name. */
  datatype Kind = Algo1 | Algo2 | Info

  function Token(kind: Kind): string {
    match kind
    case Algo1 => "_algo1"
    case Algo2 => "_algo2"
    case Info => "_info"
  }

  /** `file.stem.replace(token, "")`: every occurrence of the kind's token is deleted from the stem. */
  function BaseId(kind: Kind, name: string): string {
    Replace(Stem(name), Token(kind), "")
  }

  /**
   * For a file named by the convention `<b><token>.<ext>`, the base id is b, provided the
   * token does not already start somewhere inside b.
   */
  lemma BaseIdOfConventionalName(kind: Kind, b: string, ext: string)
    requires ext != [] && '.' !in ext
    requires forall i :: 0 <= i < |b| ==> !OccursAt(b + Token(kind), Token(kind), i)
    ensures BaseId(kind, b + Token(kind) + "." + ext) == b
  {
    var tok := Token(kind);
    StemOfSuffixed(b + tok, ext);
    assert b + tok == b + tok + [];
    ReplaceFirstOccurrence(b, [], tok, "");
  }

  /**
   * Every occurrence of the token goes, not only the trailing one: the stem
   * `<x><token><y><token>` has base id `<x><y>` when x and y hold no underscore.
   */
  lemma BaseIdRemovesEveryOccurrence(kind: Kind, name: string, x: string, y: string, ext: string)
    requires '_' !in x && '_' !in y && ext != [] && '.' !in ext
    requires name == x + Token(kind) + y + Token(kind) + "." + ext
    ensures BaseId(kind, name) == x + y
  {
    var tok := Token(kind);
    assert tok[0] == '_';
    StemOfSuffixed(x + tok + y + tok, ext);
    DeleteTwoOccurrences(x, y, tok);
  }

  /** For example, `a_algo1b_algo1.html` has base id `ab`. */
  lemma BaseIdExample()
    ensures BaseId(Algo1, "a_algo1b_algo1.html") == "ab"
  {
    BaseIdRemovesEveryOccurrence(Algo1, "a_algo1b_algo1.html", "a", "b", "html");
  }

  /** The dictionary stored for one base id: the algo1 file always, the others once attached. */
  datatype Pair = Pair(algo1: string, algo2: Option<string>, info: Option<string>)

  /** The dictionary matched_pairs: its keys in insertion order, and the entry of each key. */
  datatype Catalogue = Catalogue(order: seq<string>, pairs: map<string, Pair>)

  const Empty := Catalogue([], map[])

  /** A dictionary's keys listed once each, in some order. */
  ghost predicate Valid(c: Catalogue) {
    && (forall i, j :: 0 <= i < j < |c.order| ==> c.order[i] != c.order[j])
    && (forall b :: b in c.pairs <==> b in c.order)
  }

  /** One iteration of the scan loop for `kind` over the file `name`. */
  function Record(c: Catalogue, kind: Kind, name: string): Catalogue {
    var b := BaseId(kind, name);
    match kind
    case Algo1 =>
      Catalogue(if b in c.pairs then c.order else c.order + [b], c.pairs[b := Pair(name, None, None)])
    case Algo2 =>
      if b in c.pairs then Catalogue(c.order, c.pairs[b := c.pairs[b].(algo2 := Some(name))]) else c
    case Info =>
      if b in c.pairs then Catalogue(c.order, c.pairs[b := c.pairs[b].(info := Some(name))]) else c
  }

  /** The catalogue after one whole scan loop over `names`, in the order the scan lists them. */
  function Scan(c: Catalogue, kind: Kind, names: seq<string>): Catalogue {
    if names == [] then c
    else Record(Scan(c, kind, names[..|names| - 1]), kind, names[|names| - 1])
  }

  /** The catalogue after the algo1, algo2 and info scans, run in that order. */
  function Build(algo1Files: seq<string>, algo2Files: seq<string>, infoFiles: seq<string>): Catalogue {
    Scan(Scan(Scan(Empty, Algo1, algo1Files), Algo2, algo2Files), Info, infoFiles)
  }

  /** One scan loop: the dictionary is updated in place, file by file. */
  method ScanDirectory(c: Catalogue, kind: Kind, names: seq<string>) returns (d: Catalogue)
    ensures d == Scan(c, kind, names)
  {
    var order, pairs := c.order, c.pairs;
    for i := 0 to |names|
      invariant Catalogue(order, pairs) == Scan(c, kind, names[..i])
    {
      var name := names[i];
      var base := Replace(Stem(name), Token(kind), "");
      match kind {
        case Algo1 =>
          if base !in pairs {
            order := order + [base];
          }
          pairs := pairs[base := Pair(name, None, None)];
        case Algo2 =>
          if base in pairs {
            pairs := pairs[base := pairs[base].(algo2 := Some(name))];
          }
        case Info =>
          if base in pairs {
            pairs := pairs[base := pairs[base].(info := Some(name))];
          }
      }
      assert names[..i + 1][..i] == names[..i];
    }
    assert names[..|names|] == names;
    d := Catalogue(order, pairs);
  }

  /** The three scans of app.py lines 57-67, given the file names each glob returned. */
  method BuildCatalogue(algo1Files: seq<string>, algo2Files: seq<string>, infoFiles: seq<string>)
    returns (c: Catalogue)
    ensures c == Build(algo1Files, algo2Files, infoFiles)
  {
    c := ScanDirectory(Empty, Algo1, algo1Files);
    c := ScanDirectory(c, Algo2, algo2Files);
    c := ScanDirectory(c, Info, infoFiles);
  }

  /** The base ids of the scanned files, in scan order. */
  function Bases(kind: Kind, names: seq<string>): (bases: seq<string>)
    ensures |bases| == |names|
    ensures forall i :: 0 <= i < |names| ==> bases[i] == BaseId(kind, names[i])
  {
    Each(names, name => BaseId(kind, name))
  }

  /** The file of the last match, if there is one. */
  function LastFile(kind: Kind, names: seq<string>, b: string): Option<string> {
    var r := LastIndexOf(Bases(kind, names), b);
    if r.Some? then Some(names[r.value]) else None
  }

  /**
   * The algo1 scan alone: b is a key exactly when some algo1 file has base id b, and its
   * entry holds the last such file and nothing else.
   */
  lemma {:induction false} ScanAlgo1Entry(names: seq<string>, b: string)
    ensures b in Scan(Empty, Algo1, names).pairs <==> b in Bases(Algo1, names)
    ensures b in Scan(Empty, Algo1, names).pairs ==>
      Scan(Empty, Algo1, names).pairs[b] == Pair(LastFile(Algo1, names, b).value, None, None)
  {
    if names != [] {
      var prefix := names[..|names| - 1];
      ScanAlgo1Entry(prefix, b);
      LastFileStep(Algo1, names, b);
      assert Bases(Algo1, names) == Bases(Algo1, prefix) + [BaseId(Algo1, names[|names| - 1])];
    }
  }

  /** An entry after a later scan has attached to it the last matching file of that scan, if any. */
  function Attached(p: Pair, kind: Kind, file: Option<string>): Pair {
    if file.None? then p
    else match kind
      case Algo1 => p
      case Algo2 => p.(algo2 := file)
      case Info => p.(info := file)
  }

  /**
   * The algo2 and info scans never add or remove a key and keep the key order; each entry
   * gets the last file of that scan with its base id, and its other fields stay as they were.
   */
  lemma {:induction false} ScanAttachEntry(c: Catalogue, kind: Kind, names: seq<string>, b: string)
    requires kind != Algo1
    ensures Scan(c, kind, names).order == c.order
    ensures Scan(c, kind, names).pairs.Keys == c.pairs.Keys
    ensures b in c.pairs ==> Scan(c, kind, names).pairs[b] == Attached(c.pairs[b], kind, LastFile(kind, names, b))
  {
    if names != [] {
      var prefix, name := names[..|names| - 1], names[|names| - 1];
      ScanAttachEntry(c, kind, prefix, b);
      RecordAttach(Scan(c, kind, prefix), kind, name, b);
      LastFileStep(kind, names, b);
    }
  }

  /** How the last match moves when one more file is scanned. */
  lemma LastFileStep(kind: Kind, names: seq<string>, b: string)
    requires names != []
    ensures LastFile(kind, names, b) ==
      if BaseId(kind, names[|names| - 1]) == b then Some(names[|names| - 1])
      else LastFile(kind, names[..|names| - 1], b)
  {
    var prefix, name := names[..|names| - 1], names[|names| - 1];
    var r := LastIndexOf(Bases(kind, prefix), b);
    assert Bases(kind, names) == Bases(kind, prefix) + [BaseId(kind, name)];
    if BaseId(kind, name) == b {
      assert LastIndexOf(Bases(kind, names), b) == Some(|prefix|) by {
        LastIndexOfStep(Bases(kind, prefix), BaseId(kind, name), b);
      }
    } else {
      assert LastIndexOf(Bases(kind, names), b) == r by {
        LastIndexOfStep(Bases(kind, prefix), BaseId(kind, name), b);
      }
      if r.Some? {
        assert names[r.value] == prefix[r.value];
      }
    }
  }

  /** One algo2 or info iteration touches at most the entry of the file's base id. */
  lemma RecordAttach(d: Catalogue, kind: Kind, name: string, b: string)
    requires kind != Algo1
    ensures Record(d, kind, name).order == d.order
    ensures Record(d, kind, name).pairs.Keys == d.pairs.Keys
    ensures b in d.pairs ==>
      Record(d, kind, name).pairs[b] ==
        (if b == BaseId(kind, name) then Attached(d.pairs[b], kind, Some(name)) else d.pairs[b])
  {
  }

  /**
   * The keys of the catalogue are exactly the base ids of the algo1 files, every entry
   * holds an algo1 file, and each field holds the last file of its scan with the entry's
   * base id, or nothing when that scan found none.
   */
  lemma BuildEntry(algo1Files: seq<string>, algo2Files: seq<string>, infoFiles: seq<string>, b: string)
    ensures b in Build(algo1Files, algo2Files, infoFiles).pairs <==> b in Bases(Algo1, algo1Files)
    ensures b in Build(algo1Files, algo2Files, infoFiles).pairs ==>
      Build(algo1Files, algo2Files, infoFiles).pairs[b] ==
        Pair(LastFile(Algo1, algo1Files, b).value, LastFile(Algo2, algo2Files, b), LastFile(Info, infoFiles, b))
  {
    var c1 := Scan(Empty, Algo1, algo1Files);
    var c2 := Scan(c1, Algo2, algo2Files);
    ScanAlgo1Entry(algo1Files, b);
    ScanAttachEntry(c1, Algo2, algo2Files, b);
    ScanAttachEntry(c2, Info, infoFiles, b);
  }

  /** The algo1 scan lists each key once, and the keys listed are exactly the dictionary's keys. */
  lemma {:induction false} ScanAlgo1Valid(names: seq<string>)
    ensures Valid(Scan(Empty, Algo1, names))
  {
    if names != [] {
      ScanAlgo1Valid(names[..|names| - 1]);
    }
  }

  /** Every catalogue the three scans build is a well-formed ordered dictionary. */
  lemma BuildValid(algo1Files: seq<string>, algo2Files: seq<string>, infoFiles: seq<string>)
    ensures Valid(Build(algo1Files, algo2Files, infoFiles))
  {
    var c1 := Scan(Empty, Algo1, algo1Files);
    var c2 := Scan(c1, Algo2, algo2Files);
    ScanAlgo1Valid(algo1Files);
    ScanAttachEntry(c1, Algo2, algo2Files, "");
    ScanAttachEntry(c2, Info, infoFiles, "");
  }

  /** The distinct elements of bases, in the order of their first appearance: a dict's key order. */
  function FirstSeen(bases: seq<string>): seq<string> {
    if bases == [] then []
    else
      var seen := FirstSeen(bases[..|bases| - 1]);
      if bases[|bases| - 1] in seen then seen else seen + [bases[|bases| - 1]]
  }

  /** Position i of bases holds a, and b has not appeared up to and including i. */
  predicate FirstSightedBefore(bases: seq<string>, i: nat, a: string, b: string) {
    i < |bases| && bases[i] == a && b !in bases[..i + 1]
  }

  /** FirstSeen lists every element of bases once and lists nothing else. */
  lemma {:induction false} FirstSeenSpec(bases: seq<string>)
    ensures forall i, j :: 0 <= i < j < |FirstSeen(bases)| ==> FirstSeen(bases)[i] != FirstSeen(bases)[j]
    ensures forall b :: b in FirstSeen(bases) <==> b in bases
  {
    if bases != [] {
      FirstSeenSpec(bases[..|bases| - 1]);
      assert bases == bases[..|bases| - 1] + [bases[|bases| - 1]];
    }
  }

  /** Of two elements FirstSeen lists, the earlier one appeared before the later one first did. */
  lemma {:induction false} FirstSeenOrder(bases: seq<string>, p: nat, q: nat)
    requires p < q < |FirstSeen(bases)|
    ensures exists i :: FirstSightedBefore(bases, i, FirstSeen(bases)[p], FirstSeen(bases)[q])
  {
    var prefix, x := bases[..|bases| - 1], bases[|bases| - 1];
    var seen, o := FirstSeen(prefix), FirstSeen(bases);
    assert bases == prefix + [x];
    if q < |seen| {
      FirstSeenOrder(prefix, p, q);
      var i :| FirstSightedBefore(prefix, i, seen[p], seen[q]);
      assert bases[..i + 1] == prefix[..i + 1];
      assert FirstSightedBefore(bases, i, o[p], o[q]);
    } else {
      FirstSeenSpec(prefix);
      assert x !in seen && o == seen + [x] && o[q] == x;
      assert o[p] == seen[p] && seen[p] in seen;
      assert o[p] in prefix;
      var i :| 0 <= i < |prefix| && prefix[i] == o[p];
      assert bases[..i + 1] == prefix[..i + 1];
      assert FirstSightedBefore(bases, i, o[p], o[q]);
    }
  }

  /** The algo1 scan lists its keys in the order their base ids first appear. */
  lemma {:induction false} ScanAlgo1Order(names: seq<string>)
    ensures Scan(Empty, Algo1, names).order == FirstSeen(Bases(Algo1, names))
  {
    if names != [] {
      var prefix, name := names[..|names| - 1], names[|names| - 1];
      ScanAlgo1Order(prefix);
      var x := BaseId(Algo1, name);
      assert Bases(Algo1, names) == Bases(Algo1, prefix) + [x];
      ScanAlgo1Valid(prefix);
    }
  }

  /**
   * The catalogue's key order is the order in which the algo1 scan first met each base id;
   * the algo2 and info scans do not change it.
   */
  lemma BuildOrder(algo1Files: seq<string>, algo2Files: seq<string>, infoFiles: seq<string>)
    ensures Build(algo1Files, algo2Files, infoFiles).order == FirstSeen(Bases(Algo1, algo1Files))
  {
    var c1 := Scan(Empty, Algo1, algo1Files);
    var c2 := Scan(c1, Algo2, algo2Files);
    ScanAlgo1Order(algo1Files);
    ScanAttachEntry(c1, Algo2, algo2Files, "");
    ScanAttachEntry(c2, Info, infoFiles, "");
  }
}
