/**
 * The few pieces of Python's str behaviour the dashboard relies on:
 * str.isspace / str.strip, `c in s` with split(c, 1), str.replace,
 * split(c)[-1], and pathlib's PurePath.stem.
 */
module Strings {
  import opened Wrappers
  import opened Filtering

  /** The characters for which Python's str.isspace() holds (also what `\s` matches in a str regex). */
  const Whitespace: set<char> := {
    '\t', '\n', '\U{0B}', '\U{0C}', '\r', '\U{1C}', '\U{1D}', '\U{1E}', '\U{1F}', ' ',
    '\U{85}', '\U{A0}', '\U{1680}',
    '\U{2000}', '\U{2001}', '\U{2002}', '\U{2003}', '\U{2004}', '\U{2005}',
    '\U{2006}', '\U{2007}', '\U{2008}', '\U{2009}', '\U{200A}',
    '\U{2028}', '\U{2029}', '\U{202F}', '\U{205F}', '\U{3000}'
  }

  predicate IsSpace(c: char) {
    c in Whitespace
  }

  lemma ColonIsNotSpace()
    ensures !IsSpace(':')
  {
  }

  predicate AllSpace(s: string) {
    forall i :: 0 <= i < |s| ==> IsSpace(s[i])
  }

  /** Neither end of s is whitespace: what str.strip() leaves behind. */
  predicate Tight(s: string) {
    s == [] || (!IsSpace(s[0]) && !IsSpace(s[|s| - 1]))
  }

  /** str.lstrip(): s without its leading whitespace. */
  function TrimLeft(s: string): string
  {
    if s != [] && IsSpace(s[0]) then TrimLeft(s[1..]) else s
  }

  /** str.rstrip(): s without its trailing whitespace. */
  function TrimRight(s: string): string
  {
    if s != [] && IsSpace(s[|s| - 1]) then TrimRight(s[..|s| - 1]) else s
  }

  /** str.strip() with no argument. */
  function Trim(s: string): string
  {
    TrimRight(TrimLeft(s))
  }

  /** TrimLeft gives the longest suffix of s that does not start with whitespace. */
  lemma {:induction false} TrimLeftSpec(s: string)
    ensures |TrimLeft(s)| <= |s| && TrimLeft(s) == s[|s| - |TrimLeft(s)|..]
    ensures AllSpace(s[..|s| - |TrimLeft(s)|])
    ensures TrimLeft(s) == [] || !IsSpace(TrimLeft(s)[0])
  {
    if s != [] && IsSpace(s[0]) {
      TrimLeftSpec(s[1..]);
      var r := TrimLeft(s[1..]);
      assert s[..|s| - |r|] == [s[0]] + s[1..][..|s| - 1 - |r|];
    }
  }

  /** TrimRight gives the longest prefix of s that does not end with whitespace. */
  lemma {:induction false} TrimRightSpec(s: string)
    ensures |TrimRight(s)| <= |s| && TrimRight(s) == s[..|TrimRight(s)|]
    ensures AllSpace(s[|TrimRight(s)|..])
    ensures TrimRight(s) == [] || !IsSpace(TrimRight(s)[|TrimRight(s)| - 1])
  {
    if s != [] && IsSpace(s[|s| - 1]) {
      TrimRightSpec(s[..|s| - 1]);
      var r := TrimRight(s[..|s| - 1]);
      assert s[|r|..] == s[..|s| - 1][|r|..] + [s[|s| - 1]];
    }
  }

  /**
   * Trim only removes whitespace margins: s is w1 + Trim(s) + w2 with w1, w2 all
   * whitespace, and what is left neither starts nor ends with whitespace.
   */
  lemma TrimMargins(s: string) returns (w1: string, w2: string)
    ensures s == w1 + Trim(s) + w2
    ensures AllSpace(w1) && AllSpace(w2)
    ensures Tight(Trim(s))
  {
    var l := TrimLeft(s);
    TrimLeftSpec(s);
    var r := TrimRight(l);
    TrimRightSpec(l);
    w1, w2 := s[..|s| - |l|], l[|r|..];
    Rejoin(s, l, r);
    if r != [] {
      assert r[0] == l[0];
    }
  }

  lemma Rejoin(s: string, l: string, r: string)
    requires |l| <= |s| && l == s[|s| - |l|..]
    requires |r| <= |l| && r == l[..|r|]
    ensures s == s[..|s| - |l|] + r + l[|r|..]
  {
    assert l == r + l[|r|..];
    assert s == s[..|s| - |l|] + l;
  }

  lemma {:induction false} TrimLeftOfPadded(w: string, t: string)
    requires AllSpace(w)
    requires t == [] || !IsSpace(t[0])
    ensures TrimLeft(w + t) == t
    decreases |w|
  {
    if w != [] {
      assert (w + t)[1..] == w[1..] + t;
      TrimLeftOfPadded(w[1..], t);
    }
  }

  lemma {:induction false} TrimRightOfPadded(t: string, w: string)
    requires AllSpace(w)
    requires t == [] || !IsSpace(t[|t| - 1])
    ensures TrimRight(t + w) == t
    decreases |w|
  {
    if w != [] {
      assert (t + w)[..|t + w| - 1] == t + w[..|w| - 1];
      TrimRightOfPadded(t, w[..|w| - 1]);
    }
  }

  /** The converse of TrimMargins: whatever tight core sits between whitespace margins is what Trim returns. */
  lemma TrimOfPadded(w1: string, m: string, w2: string)
    requires AllSpace(w1) && AllSpace(w2) && Tight(m)
    ensures Trim(w1 + m + w2) == m
  {
    if m == [] {
      assert w1 + m + w2 == (w1 + w2) + [];
      TrimLeftOfPadded(w1 + w2, []);
    } else {
      assert w1 + m + w2 == w1 + (m + w2);
      TrimLeftOfPadded(w1, m + w2);
      TrimRightOfPadded(m, w2);
    }
  }

  lemma AllSpaceConcat(w: string, v: string)
    requires AllSpace(w) && AllSpace(v)
    ensures AllSpace(w + v)
  {
  }

  /** Extra whitespace around s does not change what Trim returns. */
  lemma TrimIgnoresMargins(w1: string, s: string, w2: string)
    requires AllSpace(w1) && AllSpace(w2)
    ensures Trim(w1 + s + w2) == Trim(s)
  {
    var u, v := TrimMargins(s);
    var m := Trim(s);
    Regroup(w1, u, m, v, w2);
    AllSpaceConcat(w1, u);
    AllSpaceConcat(v, w2);
    TrimOfPadded(w1 + u, m, v + w2);
  }

  /** A character that is not whitespace lies in the core of w1 + t + w2, not in the margins. */
  lemma NonSpaceInCore(w1: string, t: string, w2: string, j: nat)
    requires AllSpace(w1) && AllSpace(w2)
    requires j < |w1 + t + w2| && !IsSpace((w1 + t + w2)[j])
    ensures |w1| <= j < |w1| + |t|
  {
  }

  /** Cutting a + b + c at an index inside b. */
  lemma CutInMiddle(a: string, b: string, c: string, j: nat)
    requires |a| <= j < |a| + |b|
    ensures (a + b + c)[j] == b[j - |a|]
    ensures (a + b + c)[..j] == a + b[..j - |a|] + []
    ensures (a + b + c)[j + 1..] == [] + b[j - |a| + 1..] + c
  {
    var s := a + b + c;
    assert s[..j] == a + b[..j - |a|];
    assert s[j + 1..] == b[j - |a| + 1..] + c;
  }

  lemma Regroup(a: string, b: string, c: string, d: string, e: string)
    ensures a + (b + c + d) + e == (a + b) + c + (d + e)
  {
  }

  /** A character that is not whitespace survives Trim exactly when it occurs in s. */
  lemma TrimKeeps(s: string, c: char)
    requires !IsSpace(c)
    ensures c in Trim(s) <==> c in s
  {
    var w1, w2 := TrimMargins(s);
    if c in s {
      var i :| 0 <= i < |s| && s[i] == c;
      assert !(i < |w1|) && !(i >= |w1| + |Trim(s)|);
      assert Trim(s)[i - |w1|] == c;
    }
  }

  /** Python's `s.split(c, 1)`: the text before the first c and the text after it, if c occurs. */
  function SplitFirst(s: string, c: char): Option<(string, string)>
  {
    if s == [] then None
    else if s[0] == c then Some(([], s[1..]))
    else
      var rest := SplitFirst(s[1..], c);
      if rest.Some? then Some(([s[0]] + rest.value.0, rest.value.1)) else None
  }

  /** Without c there is nothing to split. */
  lemma {:induction false} SplitFirstAbsent(s: string, c: char)
    requires c !in s
    ensures SplitFirst(s, c) == None
  {
    if s != [] {
      assert c !in s[1..];
      SplitFirstAbsent(s[1..], c);
    }
  }

  /** The index of the first c in s. */
  lemma FirstOccurrence(s: string, c: char) returns (j: nat)
    requires c in s
    ensures j < |s| && s[j] == c && c !in s[..j]
  {
    j := 0;
    while s[j] != c
      invariant j < |s| && c !in s[..j]
      invariant c in s[j..]
      decreases |s| - j
    {
      assert s[j..] == [s[j]] + s[j + 1..];
      j := j + 1;
    }
  }

  lemma {:induction false} SplitFirstAt(s: string, c: char, j: nat)
    requires j < |s| && s[j] == c && c !in s[..j]
    ensures SplitFirst(s, c) == Some((s[..j], s[j + 1..]))
  {
    if j > 0 {
      assert s[0] == s[..j][0];
      assert s[1..][..j - 1] == s[1..j];
      SplitFirstAt(s[1..], c, j - 1);
      assert [s[0]] + s[1..j] == s[..j];
    }
  }

  /** The pattern pat occurs in s starting at index i. */
  predicate OccursAt(s: string, pat: string, i: nat) {
    i + |pat| <= |s| && s[i..i + |pat|] == pat
  }

  /**
   * Python's `s.replace(pat, rep)` for a non-empty pat: scanning from the left,
   * every non-overlapping occurrence of pat is replaced by rep.
   */
  function Replace(s: string, pat: string, rep: string): (r: string)
    requires pat != []
    decreases |s|
  {
    if |s| < |pat| then s
    else if s[..|pat|] == pat then rep + Replace(s[|pat|..], pat, rep)
    else [s[0]] + Replace(s[1..], pat, rep)
  }

  /** Where pat does not occur, Replace changes nothing. */
  lemma {:induction false} ReplaceAbsent(s: string, pat: string, rep: string)
    requires pat != []
    requires forall i :: 0 <= i < |s| ==> !OccursAt(s, pat, i)
    ensures Replace(s, pat, rep) == s
    decreases |s|
  {
    if |s| >= |pat| {
      assert !OccursAt(s, pat, 0);
      forall i | 0 <= i < |s[1..]|
        ensures !OccursAt(s[1..], pat, i)
      {
        OccursShift(s, pat, i);
      }
      ReplaceAbsent(s[1..], pat, rep);
    }
  }

  /** A string without the pattern's first character holds no occurrence to replace. */
  lemma ReplaceWithoutLead(s: string, pat: string, rep: string)
    requires pat != [] && pat[0] !in s
    ensures Replace(s, pat, rep) == s
  {
    forall i | 0 <= i < |s|
      ensures !OccursAt(s, pat, i)
    {
      if i + |pat| <= |s| {
        assert s[i..i + |pat|][0] == s[i];
      }
    }
    ReplaceAbsent(s, pat, rep);
  }

  /** The pattern cannot start inside a prefix x that lacks its first character. */
  lemma NoEarlyOccurrence(x: string, rest: string, pat: string)
    requires pat != [] && pat[0] !in x
    ensures forall i :: 0 <= i < |x| ==> !OccursAt(x + rest, pat, i)
  {
    forall i | 0 <= i < |x|
      ensures !OccursAt(x + rest, pat, i)
    {
      if i + |pat| <= |x + rest| {
        assert (x + rest)[i..i + |pat|][0] == x[i];
      }
    }
  }

  lemma OccursShift(s: string, pat: string, i: nat)
    requires s != []
    ensures OccursAt(s[1..], pat, i) <==> OccursAt(s, pat, i + 1)
  {
    if i + |pat| <= |s[1..]| {
      assert s[1..][i..i + |pat|] == s[i + 1..i + 1 + |pat|];
    }
  }

  /**
   * The first occurrence of pat is replaced, and Replace carries on after it:
   * Replace(x + pat + y) == x + rep + Replace(y) when pat starts nowhere inside x.
   */
  lemma {:induction false} ReplaceFirstOccurrence(x: string, y: string, pat: string, rep: string)
    requires pat != []
    requires forall i :: 0 <= i < |x| ==> !OccursAt(x + pat + y, pat, i)
    ensures Replace(x + pat + y, pat, rep) == x + rep + Replace(y, pat, rep)
    decreases |x|
  {
    var s := x + pat + y;
    if x == [] {
      assert s == pat + y && s[..|pat|] == pat && s[|pat|..] == y;
    } else {
      var t := x[1..] + pat + y;
      assert s[1..] == t;
      assert Replace(s, pat, rep) == [s[0]] + Replace(t, pat, rep) by {
        assert !OccursAt(s, pat, 0);
      }
      assert Replace(t, pat, rep) == x[1..] + rep + Replace(y, pat, rep) by {
        forall i | 0 <= i < |x[1..]|
          ensures !OccursAt(t, pat, i)
        {
          OccursShift(s, pat, i);
        }
        ReplaceFirstOccurrence(x[1..], y, pat, rep);
      }
      assert x == [s[0]] + x[1..];
    }
  }

  /** Deleting pat from x + pat + rest, where x lacks pat's first character, keeps x and goes on in rest. */
  lemma DeleteLeading(x: string, rest: string, pat: string)
    requires pat != [] && pat[0] !in x
    ensures Replace(x + pat + rest, pat, "") == x + Replace(rest, pat, "")
  {
    NoEarlyOccurrence(x, pat + rest, pat);
    assert x + pat + rest == x + (pat + rest);
    ReplaceFirstOccurrence(x, rest, pat, "");
    assert x + "" + Replace(rest, pat, "") == x + Replace(rest, pat, "");
  }

  /** Deleting pat from x + pat + y + pat, where neither x nor y holds pat's first character. */
  lemma DeleteTwoOccurrences(x: string, y: string, pat: string)
    requires pat != [] && pat[0] !in x && pat[0] !in y
    ensures Replace(x + pat + y + pat, pat, "") == x + y
  {
    assert x + pat + y + pat == x + pat + (y + pat);
    DeleteLeading(x, y + pat, pat);
    assert y + pat == y + pat + [];
    DeleteLeading(y, [], pat);
  }

  /** Python's `s.split(sep)[-1]`: the text after the last sep, or all of s when sep does not occur. */
  function AfterLast(s: string, sep: char): (r: string)
    ensures sep !in r
    ensures |r| <= |s| && r == s[|s| - |r|..]
    ensures |r| < |s| ==> s[|s| - |r| - 1] == sep
    decreases |s|
  {
    if s == [] then []
    else if s[|s| - 1] == sep then []
    else
      var q := AfterLast(s[..|s| - 1], sep);
      SuffixOfInit(s, |q|);
      q + [s[|s| - 1]]
  }

  /** A suffix of s minus its last character, followed by that character, is a suffix of s. */
  lemma SuffixOfInit(s: string, k: nat)
    requires s != [] && k < |s|
    ensures s[..|s| - 1][|s| - 1 - k..] + [s[|s| - 1]] == s[|s| - 1 - k..]
  {
  }

  /** Without a separator, the last token is the whole string. */
  lemma AfterLastNoSeparator(s: string, sep: char)
    requires sep !in s
    ensures AfterLast(s, sep) == s
  {
  }

  /** The last token starts right after the last separator. */
  lemma AfterLastAt(s: string, sep: char, k: nat)
    requires k < |s| && s[k] == sep && sep !in s[k + 1..]
    ensures AfterLast(s, sep) == s[k + 1..]
  {
    var r := AfterLast(s, sep);
    var start := |s| - |r|;
    forall i | start <= i < |s|
      ensures s[i] != sep
    {
      assert s[i] == r[i - start];
    }
    forall i | k < i < |s|
      ensures s[i] != sep
    {
      assert s[i] == s[k + 1..][i - k - 1];
    }
  }

  /**
   * pathlib's PurePath.stem of a file name: the name without its last suffix, where a
   * suffix starts at the last '.', provided that dot is neither the first nor the last
   * character of the name.
   */
  function Stem(name: string): string
  {
    var dot := LastIndexOf(name, '.');
    if dot.Some? && 0 < dot.value < |name| - 1 then name[..dot.value] else name
  }

  /** The stem of `<b>.<ext>` is b, for a non-empty b and a non-empty ext without a dot. */
  lemma StemOfSuffixed(b: string, ext: string)
    requires b != [] && ext != [] && '.' !in ext
    ensures Stem(b + "." + ext) == b
  {
    var name := b + "." + ext;
    assert name[|b|] == '.' && name[|b| + 1..] == ext;
    var i := LastIndexOf(name, '.').value;
    assert i == |b|;
  }
}
