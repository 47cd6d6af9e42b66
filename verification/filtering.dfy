/**
 * Generic operations on sequences. The main one is the loop shape
 * `out = []; for x in xs: if <x yields something>: out.append(<it>)`, used both for the
 * per-pair stat lines and for the global stat cards. The others are a map over a sequence
 * and the last index of an element.
 */
module Filtering {
  import opened Wrappers

  /** What the loop appends, in order: f(x) for every x of xs for which f gives something. */
  function Kept<T, U>(xs: seq<T>, f: T -> Option<U>): (r: seq<U>)
  {
    if xs == [] then []
    else
      var r := Kept(xs[..|xs| - 1], f);
      match f(xs[|xs| - 1])
      case Some(u) => r + [u]
      case None => r
  }

  /** The positions of xs that contribute to Kept, in increasing order. */
  function KeptIndices<T, U>(xs: seq<T>, f: T -> Option<U>): (idx: seq<nat>)
    ensures forall k, l :: 0 <= k < l < |idx| ==> idx[k] < idx[l]
    ensures forall k :: 0 <= k < |idx| ==> idx[k] < |xs| && f(xs[idx[k]]).Some?
    ensures forall i :: 0 <= i < |xs| && f(xs[i]).Some? ==> i in idx
  {
    if xs == [] then []
    else
      var prefix := xs[..|xs| - 1];
      var idx := KeptIndices(prefix, f);
      assert forall k :: 0 <= k < |idx| ==> xs[idx[k]] == prefix[idx[k]];
      assert forall i :: 0 <= i < |prefix| ==> xs[i] == prefix[i];
      if f(xs[|xs| - 1]).Some? then idx + [|xs| - 1] else idx
  }

  /**
   * The output follows input order: the k-th element kept is what f gives for the
   * k-th contributing position, so nothing is reordered, dropped or invented, and at most
   * |xs| elements come out.
   */
  lemma {:induction false} KeptFollowsInput<T, U>(xs: seq<T>, f: T -> Option<U>)
    ensures |Kept(xs, f)| == |KeptIndices(xs, f)| <= |xs|
    ensures forall k :: 0 <= k < |Kept(xs, f)| ==> Kept(xs, f)[k] == f(xs[KeptIndices(xs, f)[k]]).value
  {
    if xs != [] {
      var prefix := xs[..|xs| - 1];
      KeptFollowsInput(prefix, f);
      assert forall i :: 0 <= i < |prefix| ==> xs[i] == prefix[i];
    }
  }

  /** When f gives nothing for any element, nothing is kept. */
  lemma {:induction false} KeptNone<T, U>(xs: seq<T>, f: T -> Option<U>)
    requires forall x :: x in xs ==> f(x).None?
    ensures Kept(xs, f) == []
  {
    if xs != [] {
      KeptNone(xs[..|xs| - 1], f);
    }
  }

  /** One more element of input: what it contributes is appended to what came before. */
  lemma KeptStep<T, U>(xs: seq<T>, f: T -> Option<U>, i: nat)
    requires i < |xs|
    ensures Kept(xs[..i + 1], f) == Kept(xs[..i], f) + (if f(xs[i]).Some? then [f(xs[i]).value] else [])
  {
    assert xs[..i + 1][..i] == xs[..i];
  }

  /** f applied to every element of xs, in order. */
  function Each<T, U>(xs: seq<T>, f: T -> U): (ys: seq<U>)
    ensures |ys| == |xs|
    ensures forall i :: 0 <= i < |xs| ==> ys[i] == f(xs[i])
  {
    if xs == [] then []
    else
      var prefix := xs[..|xs| - 1];
      assert forall i :: 0 <= i < |prefix| ==> xs[i] == prefix[i];
      Each(prefix, f) + [f(xs[|xs| - 1])]
  }

  /** The index of the last x in s, or None when x does not occur (Python's `rfind` on str). */
  function LastIndexOf<T(==)>(s: seq<T>, x: T): (r: Option<nat>)
    ensures r.None? <==> x !in s
    ensures r.Some? ==> r.value < |s| && s[r.value] == x && x !in s[r.value + 1..]
  {
    if s == [] then None
    else if s[|s| - 1] == x then Some(|s| - 1)
    else
      var prefix := s[..|s| - 1];
      var r := LastIndexOf(prefix, x);
      assert s == prefix + [s[|s| - 1]];
      assert r.Some? ==> s[r.value + 1..] == prefix[r.value + 1..] + [s[|s| - 1]];
      r
  }

  /** Appending y moves the last index of x to the end when y is x, and leaves it otherwise. */
  lemma LastIndexOfStep<T>(s: seq<T>, y: T, x: T)
    ensures LastIndexOf(s + [y], x) == if y == x then Some(|s|) else LastIndexOf(s, x)
  {
    assert (s + [y])[..|s|] == s;
  }
}
