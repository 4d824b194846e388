/** Sequence helpers shared by the manifest reader and the compaction
    filters: keeping the elements that pass a test, in order. */
module Sequences {

  /** The elements of `s` that pass `keep`, in their order in `s`. */
  function Filter<T>(s: seq<T>, keep: T -> bool): seq<T>
  {
    if s == [] then []
    else Filter(s[..|s| - 1], keep) + (if keep(s[|s| - 1]) then [s[|s| - 1]] else [])
  }

  /** Exactly the passing elements are kept, and nothing is added. */
  lemma {:induction false} FilterKeeps<T>(s: seq<T>, keep: T -> bool)
    ensures forall k :: 0 <= k < |Filter(s, keep)| ==> keep(Filter(s, keep)[k])
    ensures forall x :: x in Filter(s, keep) <==> x in s && keep(x)
    ensures |Filter(s, keep)| <= |s|
    decreases |s|
  {
    if s != [] {
      var init := s[..|s| - 1];
      FilterKeeps(init, keep);
      assert s == init + [s[|s| - 1]];
    }
  }

  /** When every element passes, the sequence is kept whole. */
  lemma {:induction false} FilterAll<T>(s: seq<T>, keep: T -> bool)
    requires forall k :: 0 <= k < |s| ==> keep(s[k])
    ensures Filter(s, keep) == s
    decreases |s|
  {
    if s != [] {
      var init := s[..|s| - 1];
      FilterAll(init, keep);
      assert init + [s[|s| - 1]] == s;
    }
  }

  /** Filtering works piece by piece. */
  lemma {:induction false} FilterAppend<T>(x: seq<T>, y: seq<T>, keep: T -> bool)
    ensures Filter(x + y, keep) == Filter(x, keep) + Filter(y, keep)
    decreases |y|
  {
    if y == [] {
      assert x + y == x;
    } else {
      var init := y[..|y| - 1];
      FilterAppend(x, init, keep);
      assert (x + y)[..|x + y| - 1] == x + init;
    }
  }

  /** One more element of the input: it is kept after the others exactly
      when it passes. */
  lemma FilterSnoc<T>(s: seq<T>, x: T, keep: T -> bool)
    ensures Filter(s + [x], keep) == Filter(s, keep) + (if keep(x) then [x] else [])
  {
    assert (s + [x])[..|s|] == s;
  }

  /** The pieces of `ss`, one after the other. */
  function Concat<T>(ss: seq<seq<T>>): seq<T>
  {
    if ss == [] then [] else Concat(ss[..|ss| - 1]) + ss[|ss| - 1]
  }

  lemma ConcatSnoc<T>(ss: seq<seq<T>>, s: seq<T>)
    ensures Concat(ss + [s]) == Concat(ss) + s
  {
    assert (ss + [s])[..|ss|] == ss;
  }

  /** The pieces before `i` are a prefix of the whole, and piece `i` comes
      right after them. */
  lemma {:induction false} ConcatSplit<T>(ss: seq<seq<T>>, i: nat)
    requires i < |ss|
    ensures |Concat(ss[..i + 1])| == |Concat(ss[..i])| + |ss[i]| <= |Concat(ss)|
    ensures Concat(ss)[..|Concat(ss[..i])|] == Concat(ss[..i])
    ensures Concat(ss)[|Concat(ss[..i])|..|Concat(ss[..i + 1])|] == ss[i]
    decreases |ss|
  {
    var n := |ss| - 1;
    assert ss[..n + 1] == ss;
    assert ss[..i + 1][..i] == ss[..i];
    assert Concat(ss[..i + 1]) == Concat(ss[..i]) + ss[i];
    if i < n {
      var p := ss[..n];
      ConcatSplit(p, i);
      assert p[..i] == ss[..i] && p[..i + 1] == ss[..i + 1];
      assert Concat(ss) == Concat(p) + ss[n];
    }
  }

  /** With no empty piece, the start of piece `i` is strictly before that
      of piece `j > i`. */
  lemma {:induction false} ConcatStartsIncrease<T>(ss: seq<seq<T>>, i: nat, j: nat)
    requires i < j <= |ss|
    requires forall k :: 0 <= k < |ss| ==> |ss[k]| > 0
    ensures |Concat(ss[..i])| < |Concat(ss[..j])| <= |Concat(ss)|
    decreases j - i
  {
    ConcatSplit(ss, i);
    if i + 1 < j {
      ConcatStartsIncrease(ss, i + 1, j);
    } else {
      assert ss[..|ss|] == ss;
    }
  }

  /** Two adjacent slices make the slice that spans them. */
  lemma SliceJoin<T>(s: seq<T>, lo: nat, mid: nat, hi: nat, x: seq<T>, y: seq<T>)
    requires lo <= mid <= hi <= |s| && s[lo..mid] == x && s[mid..hi] == y
    ensures s[lo..hi] == x + y
  {
    assert s[lo..hi] == s[lo..mid] + s[mid..hi];
  }

  /** A slice of a slice is a slice of the whole. */
  lemma SliceOfSlice<T>(s: seq<T>, lo: nat, hi: nat, i: nat, j: nat)
    requires lo <= hi <= |s| && i <= j <= hi - lo
    ensures s[lo..hi][i..j] == s[lo + i..lo + j]
  {
    var t := s[lo..hi];
    forall k | 0 <= k < j - i
      ensures t[i..j][k] == s[lo + i..lo + j][k]
    {
      assert t[i..j][k] == t[i + k] == s[lo + i + k];
    }
  }
}
