/** The size-bucketed compaction policy of stack.go: `log2`, the runs of
    tables whose sizes share a log2 (`sizesToSegments`), and the choice of
    the run to compact (`suggestCompactionSegment`). */
module Compaction {
  import opened Bytes

  /** `segment{start, end, log, bytes}`: tables `start` up to, not
      including, `end`, whose sizes have log2 `log` and add up to `bytes`. */
  datatype Segment = Segment(start: nat, end: nat, log: nat, bytes: U64)

  /** `segment.size`. */
  function Size(s: Segment): int
  {
    s.end - s.start
  }

  // ---------------------------------------------------------------------
  // log2

  /** The number of binary digits of `n`. */
  function BitLength(n: nat): nat
  {
    if n == 0 then 0 else 1 + BitLength(n / 2)
  }

  /** The floor of the base-2 logarithm: one less than the number of
      binary digits. It is 0 at 0, where `log2` panics; the method
      `ComputeLog2` below keeps that precondition. */
  function Log2(sz: nat): nat
  {
    BitLength(sz / 2)
  }

  lemma {:induction false} Log2Bounds(sz: nat)
    requires sz > 0
    ensures Pow2(Log2(sz)) <= sz < Pow2(Log2(sz) + 1)
    decreases sz
  {
    if sz >= 2 {
      var h := sz / 2;
      Log2Bounds(h);
      var l := Log2(h);
      assert BitLength(h) == 1 + BitLength(h / 2);
      assert Log2(sz) == l + 1;
      assert Pow2(l + 1) == 2 * Pow2(l) && Pow2(l + 2) == 2 * Pow2(l + 1);
      assert 2 * h <= sz <= 2 * h + 1;
    } else {
      assert Log2(sz) == BitLength(0) == 0;
      assert Pow2(1) == 2 * Pow2(0);
    }
  }

  lemma {:induction false} Pow2Monotone(a: nat, b: nat)
    requires a <= b
    ensures Pow2(a) <= Pow2(b)
    decreases b
  {
    if a < b {
      Pow2Monotone(a, b - 1);
    }
  }

  /** `log2(sz)` is the one `l` with `2^l <= sz < 2^(l+1)`. */
  lemma Log2Unique(sz: nat, l: nat)
    requires Pow2(l) <= sz < Pow2(l + 1)
    ensures l == Log2(sz)
  {
    Log2Bounds(sz);
    if l < Log2(sz) {
      Pow2Monotone(l + 1, Log2(sz));
    } else if l > Log2(sz) {
      Pow2Monotone(Log2(sz) + 1, l);
    }
  }

  /** Sizes below 2^64 have a log2 below 64. */
  lemma Log2Below64(sz: U64)
    ensures Log2(sz) < 64
  {
    if sz > 0 {
      Log2Bounds(sz);
      if Log2(sz) >= 64 {
        Pow2Monotone(64, Log2(sz));
        Pow2At64();
      }
    }
  }

  /** `log2(sz)`: halves `sz` until nothing is left, counting the steps. It
      panics on 0. */
  method ComputeLog2(sz: U64) returns (l: int)
    requires sz > 0
    ensures l == Log2(sz)
  {
    var x := sz;
    l := 0;
    while x > 0
      invariant l + BitLength(x) == BitLength(sz)
      decreases x
    {
      l := l + 1;
      x := x / 2;
    }
    l := l - 1;
  }

  // ---------------------------------------------------------------------
  // Runs of equal log2

  /** `log2` panics on 0, so every size must be positive. */
  predicate Positive(sizes: seq<U64>)
  {
    forall i :: 0 <= i < |sizes| ==> sizes[i] > 0
  }

  /** The total size of tables `a` up to, not including, `b`. */
  function SumRange(s: seq<U64>, a: nat, b: nat): nat
    requires a <= b <= |s|
    decreases b - a
  {
    if a == b then 0 else SumRange(s, a, b - 1) + s[b - 1]
  }

  /** The total size of the stack. */
  function Sum(s: seq<U64>): nat
  {
    SumRange(s, 0, |s|)
  }

  /** A range sums to the sums of its two parts. */
  lemma {:induction false} SumSplit(s: seq<U64>, a: nat, m: nat, b: nat)
    requires a <= m <= b <= |s|
    ensures SumRange(s, a, b) == SumRange(s, a, m) + SumRange(s, m, b)
    decreases b - m
  {
    if m < b {
      SumSplit(s, a, m, b - 1);
    }
  }

  /** A range sums to no more than the whole stack. */
  lemma SumWithin(s: seq<U64>, a: nat, b: nat)
    requires a <= b <= |s|
    ensures SumRange(s, a, b) <= Sum(s)
  {
    SumSplit(s, 0, a, b);
    SumSplit(s, 0, b, |s|);
  }

  /** A range extended by the table before it. */
  lemma SumCons(s: seq<U64>, a: nat, b: nat)
    requires 0 < a <= b <= |s|
    ensures SumRange(s, a - 1, b) == s[a - 1] + SumRange(s, a, b)
  {
    SumSplit(s, a - 1, a, b);
  }

  /** Tables of one size add up to their number times that size. */
  lemma {:induction false} SumConst(s: seq<U64>, x: U64, n: nat)
    requires n <= |s|
    requires forall k :: 0 <= k < |s| ==> s[k] == x
    ensures SumRange(s, 0, n) == n * x
    decreases n
  {
    if n > 0 {
      SumConst(s, x, n - 1);
      assert SumRange(s, 0, n) == (n - 1) * x + x;
    }
  }

  /** Reference definition: the runs of the first `n` tables whose sizes
      share a log2, built table by table; the running totals are `uint64`
      sums. */
  function Runs(sizes: seq<U64>, n: nat): seq<Segment>
    requires n <= |sizes|
  {
    if n == 0 then []
    else
      var rs := Runs(sizes, n - 1);
      var l := Log2(sizes[n - 1]);
      if rs != [] && rs[|rs| - 1].log == l then
        rs[..|rs| - 1] + [rs[|rs| - 1].(end := n, bytes := Add64(rs[|rs| - 1].bytes, sizes[n - 1]))]
      else rs + [Segment(n - 1, n, l, sizes[n - 1])]
  }

  /** What `sizesToSegments` returns: the runs of the whole stack, or one
      empty segment for an empty stack. */
  function Segments(sizes: seq<U64>): seq<Segment>
  {
    if sizes == [] then [Segment(0, 0, 0, 0)] else Runs(sizes, |sizes|)
  }

  /** `r` cuts `[0, n)` into consecutive non-empty ranges, in order. */
  predicate Tiles(n: nat, r: seq<Segment>)
  {
    && (n == 0 <==> r == [])
    && (r != [] ==> r[0].start == 0 && r[|r| - 1].end == n)
    && (forall k :: 0 <= k < |r| ==> r[k].start < r[k].end <= n)
    && (forall k :: 0 < k < |r| ==> r[k - 1].end == r[k].start)
  }

  /** `sz` is a size whose log2 is `l`. */
  predicate HasLog(sz: U64, l: nat)
  {
    Log2(sz) == l
  }

  /** Every size in a range has the range's log2. */
  predicate OneLog(sizes: seq<U64>, r: seq<Segment>)
  {
    forall k, i :: 0 <= k < |r| && r[k].start <= i < r[k].end && i < |sizes| ==> HasLog(sizes[i], r[k].log)
  }

  /** Ranges side by side have different log2s. */
  predicate Alternates(r: seq<Segment>)
  {
    forall k :: 0 < k < |r| ==> r[k - 1].log != r[k].log
  }

  /** Every range holds the sum of its sizes. */
  predicate Totals(sizes: seq<U64>, r: seq<Segment>)
  {
    forall k :: 0 <= k < |r| && r[k].start <= r[k].end <= |sizes| ==> r[k].bytes == SumRange(sizes, r[k].start, r[k].end)
  }

  /** `r` is the cut of the first `n` tables into maximal runs of one log2,
      each holding the sum of its sizes. */
  predicate IsRuns(sizes: seq<U64>, n: nat, r: seq<Segment>)
  {
    Tiles(n, r) && OneLog(sizes, r) && Alternates(r) && Totals(sizes, r)
  }

  /** When the stack's total fits in 64 bits, the reference runs are the
      maximal runs. */
  lemma {:induction false} RunsAreRuns(sizes: seq<U64>, n: nat)
    requires n <= |sizes| && Sum(sizes) < TWO64
    ensures IsRuns(sizes, n, Runs(sizes, n))
    decreases n
  {
    if n > 0 {
      RunsAreRuns(sizes, n - 1);
      RunsStep(sizes, n, Runs(sizes, n - 1), Runs(sizes, n));
    }
  }

  /** One table more: the last run grows or a new run starts. */
  lemma RunsStep(sizes: seq<U64>, n: nat, rs: seq<Segment>, r: seq<Segment>)
    requires 0 < n <= |sizes| && Sum(sizes) < TWO64
    requires IsRuns(sizes, n - 1, rs)
    requires var l := Log2(sizes[n - 1]);
      r == if rs != [] && rs[|rs| - 1].log == l
           then rs[..|rs| - 1] + [rs[|rs| - 1].(end := n, bytes := Add64(rs[|rs| - 1].bytes, sizes[n - 1]))]
           else rs + [Segment(n - 1, n, l, sizes[n - 1])]
    ensures IsRuns(sizes, n, r)
  {
    var l := Log2(sizes[n - 1]);
    if rs != [] && rs[|rs| - 1].log == l {
      RunsGrow(sizes, n, rs, r);
    } else {
      RunsStart(sizes, n, rs, l, r);
    }
  }

  /** The table has the last run's log2: that run grows. */
  lemma RunsGrow(sizes: seq<U64>, n: nat, rs: seq<Segment>, r: seq<Segment>)
    requires 0 < n <= |sizes| && Sum(sizes) < TWO64
    requires IsRuns(sizes, n - 1, rs)
    requires rs != [] && HasLog(sizes[n - 1], rs[|rs| - 1].log)
    requires r == rs[..|rs| - 1] + [rs[|rs| - 1].(end := n, bytes := Add64(rs[|rs| - 1].bytes, sizes[n - 1]))]
    ensures IsRuns(sizes, n, r)
  {
    var last := rs[|rs| - 1];
    var b := rs[..|rs| - 1];
    LastRunGrows(sizes, n, rs);
    var y := last.(end := n, bytes := last.bytes + sizes[n - 1]);
    assert r == b + [y];
    TilesInit(n - 1, rs);
    RunsInit(sizes, rs);
    RunsSnoc(sizes, n, b, y);
  }

  /** The table's log2 differs from the last run's: a new run starts. */
  lemma RunsStart(sizes: seq<U64>, n: nat, rs: seq<Segment>, l: nat, r: seq<Segment>)
    requires 0 < n <= |sizes| && l == Log2(sizes[n - 1])
    requires IsRuns(sizes, n - 1, rs)
    requires rs != [] ==> rs[|rs| - 1].log != l
    requires r == rs + [Segment(n - 1, n, l, sizes[n - 1])]
    ensures IsRuns(sizes, n, r)
  {
    assert SumRange(sizes, n - 1, n) == sizes[n - 1];
    RunsSnoc(sizes, n, rs, Segment(n - 1, n, l, sizes[n - 1]));
  }

  /** All runs but the last keep their properties. */
  lemma RunsInit(sizes: seq<U64>, rs: seq<Segment>)
    requires rs != []
    requires Alternates(rs) && OneLog(sizes, rs) && Totals(sizes, rs)
    ensures var b := rs[..|rs| - 1];
      && Alternates(b) && OneLog(sizes, b) && Totals(sizes, b)
      && (b != [] ==> b[|b| - 1].log != rs[|rs| - 1].log)
  {
    var b := rs[..|rs| - 1];
    assert forall k :: 0 <= k < |b| ==> b[k] == rs[k];
  }

  /** The last run taken one table further. */
  lemma LastRunGrows(sizes: seq<U64>, n: nat, rs: seq<Segment>)
    requires 0 < n <= |sizes| && Sum(sizes) < TWO64
    requires rs != [] && Tiles(n - 1, rs) && OneLog(sizes, rs) && Totals(sizes, rs)
    requires HasLog(sizes[n - 1], rs[|rs| - 1].log)
    ensures var last := rs[|rs| - 1];
      && last.start < n
      && last.bytes + sizes[n - 1] == SumRange(sizes, last.start, n) < TWO64
      && forall i :: last.start <= i < n ==> HasLog(sizes[i], last.log)
  {
    var last := rs[|rs| - 1];
    assert last.end == n - 1;
    assert last.bytes == SumRange(sizes, last.start, n - 1);
    SumWithin(sizes, last.start, n);
  }

  lemma TilesInit(n: nat, rs: seq<Segment>)
    requires Tiles(n, rs) && rs != []
    ensures Tiles(rs[|rs| - 1].start, rs[..|rs| - 1])
  {
    var b := rs[..|rs| - 1];
    assert forall k :: 0 <= k < |b| ==> b[k] == rs[k];
    if b != [] {
      assert b[|b| - 1].end == rs[|rs| - 1].start;
      forall k | 0 <= k < |b|
        ensures b[k].end <= rs[|rs| - 1].start
      {
        TilesOrdered(n, rs, k, |rs| - 1);
      }
    }
  }

  lemma {:induction false} TilesOrdered(n: nat, rs: seq<Segment>, k: nat, m: nat)
    requires Tiles(n, rs) && k < m < |rs|
    ensures rs[k].end <= rs[m].start
    decreases m - k
  {
    if k + 1 < m {
      TilesOrdered(n, rs, k + 1, m);
    }
  }

  /** A new last run, from where the others stop up to table `n`. */
  lemma RunsSnoc(sizes: seq<U64>, n: nat, b: seq<Segment>, y: Segment)
    requires y.start < y.end == n <= |sizes|
    requires Tiles(y.start, b) && Alternates(b) && OneLog(sizes, b) && Totals(sizes, b)
    requires b != [] ==> b[|b| - 1].log != y.log
    requires forall i :: y.start <= i < y.end ==> HasLog(sizes[i], y.log)
    requires y.bytes == SumRange(sizes, y.start, y.end)
    ensures IsRuns(sizes, n, b + [y])
  {
    TilesSnoc(n, b, y);
    OneLogSnoc(sizes, b, y);
    AlternatesSnoc(b, y);
    TotalsSnoc(sizes, b, y);
  }

  lemma TilesSnoc(n: nat, b: seq<Segment>, y: Segment)
    requires y.start < y.end == n && Tiles(y.start, b)
    ensures Tiles(n, b + [y])
  {
    var r := b + [y];
    assert forall k :: 0 <= k < |b| ==> r[k] == b[k];
    assert r[|b|] == y;
  }

  lemma OneLogSnoc(sizes: seq<U64>, b: seq<Segment>, y: Segment)
    requires OneLog(sizes, b) && y.end <= |sizes|
    requires forall i :: y.start <= i < y.end ==> HasLog(sizes[i], y.log)
    ensures OneLog(sizes, b + [y])
  {
    var r := b + [y];
    assert forall k :: 0 <= k < |b| ==> r[k] == b[k];
    assert r[|b|] == y;
  }

  lemma AlternatesSnoc(b: seq<Segment>, y: Segment)
    requires Alternates(b) && (b != [] ==> b[|b| - 1].log != y.log)
    ensures Alternates(b + [y])
  {
    var r := b + [y];
    assert forall k :: 0 <= k < |b| ==> r[k] == b[k];
    assert r[|b|] == y;
  }

  lemma TotalsSnoc(sizes: seq<U64>, b: seq<Segment>, y: Segment)
    requires Totals(sizes, b) && y.start <= y.end <= |sizes| && y.bytes == SumRange(sizes, y.start, y.end)
    ensures Totals(sizes, b + [y])
  {
    var r := b + [y];
    assert forall k :: 0 <= k < |b| ==> r[k] == b[k];
    assert r[|b|] == y;
  }

  /** Every run lies inside the first `n` tables, holds the sum of its
      sizes and has the log2 of its first table. */
  lemma RunAt(sizes: seq<U64>, n: nat, rs: seq<Segment>, j: nat)
    requires n <= |sizes| && IsRuns(sizes, n, rs) && j < |rs|
    ensures rs[j].start < rs[j].end <= n
    ensures rs[j].bytes == SumRange(sizes, rs[j].start, rs[j].end)
    ensures rs[j].log == Log2(sizes[rs[j].start])
  {
  }

  /** The last run ends at table `n` and holds the sum of its sizes. */
  lemma {:induction false} RunsLast(sizes: seq<U64>, n: nat)
    requires 0 < n <= |sizes| && Sum(sizes) < TWO64
    ensures var rs := Runs(sizes, n);
      && rs != [] && rs[|rs| - 1].start < rs[|rs| - 1].end == n
      && rs[|rs| - 1].bytes == SumRange(sizes, rs[|rs| - 1].start, n)
    decreases n
  {
    if n > 1 {
      RunsLast(sizes, n - 1);
      var rs := Runs(sizes, n - 1);
      SumWithin(sizes, rs[|rs| - 1].start, n);
    }
  }

  /** `sizesToSegments(sizes)`: one pass that closes the current run when
      the log2 changes. The running byte count wraps as a `uint64` does; on
      totals below 2^64 the result is the maximal runs. */
  method SizesToSegments(sizes: seq<U64>) returns (res: seq<Segment>)
    requires Positive(sizes)
    ensures Sum(sizes) < TWO64 ==> res == Segments(sizes)
  {
    var cur := Segment(0, 0, 0, 0);
    res := [];
    var i := 0;
    while i < |sizes|
      invariant 0 <= i <= |sizes|
      invariant i == 0 ==> res == [] && cur == Segment(0, 0, 0, 0)
      invariant i > 0 && Sum(sizes) < TWO64 ==> res + [cur] == Runs(sizes, i)
    {
      var l := ComputeLog2(sizes[i]);
      ghost var res0, cur0 := res, cur;
      if cur.log != l && cur.bytes > 0 {
        res := res + [cur];
        cur := Segment(i, 0, 0, 0);
      }
      cur := cur.(log := l, end := i + 1, bytes := Add64(cur.bytes, sizes[i]));
      if Sum(sizes) < TWO64 {
        SegmentStep(sizes, i, res0, cur0, l, res, cur);
      }
      i := i + 1;
    }
    res := res + [cur];
  }

  /** One step of the `sizesToSegments` loop, against the reference. */
  lemma SegmentStep(sizes: seq<U64>, i: nat, res0: seq<Segment>, cur0: Segment, l: nat,
                    res: seq<Segment>, cur: Segment)
    requires Sum(sizes) < TWO64 && i < |sizes| && l == Log2(sizes[i])
    requires i > 0 ==> sizes[i - 1] > 0
    requires i == 0 ==> res0 == [] && cur0 == Segment(0, 0, 0, 0)
    requires i > 0 ==> res0 + [cur0] == Runs(sizes, i)
    requires cur0.log != l && cur0.bytes > 0 ==>
               res == res0 + [cur0] && cur == Segment(i, i + 1, l, Add64(0, sizes[i]))
    requires !(cur0.log != l && cur0.bytes > 0) ==>
               res == res0 && cur == cur0.(log := l, end := i + 1, bytes := Add64(cur0.bytes, sizes[i]))
    ensures res + [cur] == Runs(sizes, i + 1)
  {
    if i > 0 {
      RunsLast(sizes, i);
      var rs := Runs(sizes, i);
      assert rs[..|rs| - 1] == res0 && rs[|rs| - 1] == cur0;
      assert cur0.bytes > 0;
    }
  }

  // ---------------------------------------------------------------------
  // The run to compact

  /** Reference definition: among the runs of two or more tables, the
      first whose log2 is strictly smaller than every run before it. */
  function Pick(segs: seq<Segment>): (j: Option<nat>)
    ensures j.Some? ==> j.value < |segs| && Size(segs[j.value]) >= 2
  {
    if segs == [] then None
    else
      var p := Pick(segs[..|segs| - 1]);
      var s := segs[|segs| - 1];
      if Size(s) < 2 then p
      else if p.None? || s.log < segs[p.value].log then Some(|segs| - 1)
      else p
  }

  /** `Pick` is the first run of two or more tables with the smallest log2,
      and finds nothing exactly when every run is a single table. */
  lemma {:induction false} PickIsFirstMinimum(segs: seq<Segment>)
    ensures Pick(segs).None? <==> forall k :: 0 <= k < |segs| ==> Size(segs[k]) < 2
    ensures Pick(segs).Some? ==> var j := Pick(segs).value;
      && Size(segs[j]) >= 2
      && (forall k :: 0 <= k < |segs| && Size(segs[k]) >= 2 ==> segs[j].log <= segs[k].log)
      && (forall k :: 0 <= k < j && Size(segs[k]) >= 2 ==> segs[j].log < segs[k].log)
    decreases |segs|
  {
    if segs != [] {
      var init := segs[..|segs| - 1];
      PickIsFirstMinimum(init);
      assert forall k :: 0 <= k < |init| ==> init[k] == segs[k];
    }
  }

  /** One more segment seen by the scan. */
  lemma PickStep(segs: seq<Segment>, k: nat, pick: Option<nat>)
    requires k < |segs| && pick == Pick(segs[..k])
    ensures Pick(segs[..k + 1]) == if Size(segs[k]) < 2 || (pick.Some? && segs[k].log >= segs[pick.value].log)
                                   then pick else Some(k)
  {
    assert segs[..k + 1][..k] == segs[..k];
  }

  /** The widening test: there is a table just before `s` and its log2 is
      no larger than that of `s`'s total. */
  predicate Takes(sizes: seq<U64>, s: Segment)
  {
    0 < s.start <= |sizes| && Log2(s.bytes) >= Log2(sizes[s.start - 1])
  }

  /** Reference definition of the widening: while the test passes, take
      the table just before the segment in. */
  function Widen(sizes: seq<U64>, s: Segment): Segment
    decreases s.start
  {
    if Takes(sizes, s) then
      Widen(sizes, s.(start := s.start - 1, bytes := Add64(s.bytes, sizes[s.start - 1])))
    else s
  }

  /** One table taken in: when the stack's total fits in 64 bits, the
      larger segment still holds the sum of its sizes. */
  lemma WidenStep(sizes: seq<U64>, s: Segment) returns (t: Segment)
    requires Sum(sizes) < TWO64
    requires 0 < s.start < s.end <= |sizes| && s.bytes == SumRange(sizes, s.start, s.end)
    ensures t == s.(start := s.start - 1, bytes := Add64(s.bytes, sizes[s.start - 1]))
    ensures t.start < t.end <= |sizes| && t.bytes == SumRange(sizes, t.start, t.end)
    ensures Takes(sizes, s) ==> Widen(sizes, s) == Widen(sizes, t)
  {
    SumCons(sizes, s.start, s.end);
    SumWithin(sizes, s.start - 1, s.end);
    t := s.(start := s.start - 1, bytes := Add64(s.bytes, sizes[s.start - 1]));
  }

  /** Widening stops where the test fails. */
  lemma WidenDone(sizes: seq<U64>, s: Segment)
    requires !Takes(sizes, s)
    ensures Widen(sizes, s) == s
  {
  }

  /** A range that ends with a positive size has a positive sum. */
  lemma SumPositive(s: seq<U64>, a: nat, b: nat)
    requires a < b <= |s| && s[b - 1] > 0
    ensures SumRange(s, a, b) > 0
  {
  }

  /** Widening keeps the end and the log2, and when the stack's total fits
      in 64 bits the widened segment still holds the sum of its sizes. */
  lemma {:induction false} WidenTotals(sizes: seq<U64>, s: Segment)
    requires Sum(sizes) < TWO64
    requires s.start < s.end <= |sizes| && s.bytes == SumRange(sizes, s.start, s.end)
    ensures var w := Widen(sizes, s);
      w.end == s.end && w.log == s.log && w.start <= s.start && w.bytes == SumRange(sizes, w.start, w.end)
    decreases s.start
  {
    if Takes(sizes, s) {
      var t := WidenStep(sizes, s);
      WidenTotals(sizes, t);
    }
  }

  /** Widening goes left exactly as far as the test allows: the segment it
      ends with fails the test ... */
  lemma {:induction false} WidenStops(sizes: seq<U64>, s: Segment)
    ensures !Takes(sizes, Widen(sizes, s))
    decreases s.start
  {
    if Takes(sizes, s) {
      WidenStops(sizes, s.(start := s.start - 1, bytes := Add64(s.bytes, sizes[s.start - 1])));
    }
  }

  /** The widening test for the table just before `[p, e)`. */
  predicate Absorbs(sizes: seq<U64>, p: nat, e: nat)
  {
    0 < p <= e <= |sizes| && Log2(SumRange(sizes, p, e)) >= Log2(sizes[p - 1])
  }

  /** ... and every table it took in passed it. */
  lemma {:induction false} WidenAbsorbs(sizes: seq<U64>, s: Segment)
    requires Sum(sizes) < TWO64
    requires s.start < s.end <= |sizes| && s.bytes == SumRange(sizes, s.start, s.end)
    ensures var w := Widen(sizes, s); forall p :: w.start < p <= s.start ==> Absorbs(sizes, p, s.end)
    decreases s.start
  {
    if Takes(sizes, s) {
      assert Absorbs(sizes, s.start, s.end);
      var t := WidenStep(sizes, s);
      WidenAbsorbs(sizes, t);
    }
  }

  /** What `suggestCompactionSegment` returns: the picked run, widened. */
  function Suggest(sizes: seq<U64>): Option<Segment>
  {
    if sizes == [] then None
    else
      var rs := Runs(sizes, |sizes|);
      match Pick(rs)
      case None => None
      case Some(j) => Some(Widen(sizes, rs[j]))
  }

  /** There is no suggestion exactly when every segment is a single table
      (or, for an empty stack, the one empty segment). */
  lemma SuggestNone(sizes: seq<U64>)
    ensures Suggest(sizes).None? <==> forall k :: 0 <= k < |Segments(sizes)| ==> Size(Segments(sizes)[k]) < 2
  {
    if sizes != [] {
      var rs := Runs(sizes, |sizes|);
      assert Segments(sizes) == rs;
      assert Suggest(sizes).None? <==> Pick(rs).None?;
      PickIsFirstMinimum(rs);
    } else {
      assert Size(Segments(sizes)[0]) == 0;
    }
  }

  /** The suggestion in terms of the pick among the segments: the picked
      run, widened to the left. */
  lemma SuggestOfPick(sizes: seq<U64>, segs: seq<Segment>)
    requires Sum(sizes) < TWO64
    requires segs == Segments(sizes)
    ensures sizes == [] || Pick(segs).None? ==> Suggest(sizes).None?
    ensures sizes != [] && Pick(segs).Some? ==> var s := segs[Pick(segs).value];
      && s.start < s.end <= |sizes| && s.bytes == SumRange(sizes, s.start, s.end)
      && Suggest(sizes) == Some(Widen(sizes, s))
  {
    if sizes != [] && Pick(segs).Some? {
      RunsAreRuns(sizes, |sizes|);
      RunAt(sizes, |sizes|, segs, Pick(segs).value);
    }
  }

  /** A suggestion is a range of at least two tables inside the stack that
      holds the sum of its sizes ... */
  lemma SuggestBounds(sizes: seq<U64>)
    requires Sum(sizes) < TWO64
    ensures Suggest(sizes).Some? ==> var s := Suggest(sizes).value;
      && s.end - s.start >= 2 && s.end <= |sizes|
      && s.bytes == SumRange(sizes, s.start, s.end)
  {
    var segs := Segments(sizes);
    SuggestOfPick(sizes, segs);
    if sizes != [] && Pick(segs).Some? {
      WidenTotals(sizes, segs[Pick(segs).value]);
    }
  }

  /** ... that cannot be widened further ... */
  lemma SuggestStops(sizes: seq<U64>)
    ensures Suggest(sizes).Some? ==> !Takes(sizes, Suggest(sizes).value)
  {
    if sizes != [] {
      var rs := Runs(sizes, |sizes|);
      if Pick(rs).Some? {
        WidenStops(sizes, rs[Pick(rs).value]);
      }
    }
  }

  /** ... and that reaches from the first smallest run leftwards over
      tables that each passed the widening test. */
  lemma SuggestAbsorbs(sizes: seq<U64>)
    requires Sum(sizes) < TWO64
    ensures Suggest(sizes).Some? ==> sizes != [] && Pick(Segments(sizes)).Some?
    ensures Suggest(sizes).Some? && sizes != [] && Pick(Segments(sizes)).Some? ==>
      var seed := Segments(sizes)[Pick(Segments(sizes)).value]; var s := Suggest(sizes).value;
      && s.end == seed.end && s.start <= seed.start
      && forall p :: s.start < p <= seed.start ==> Absorbs(sizes, p, s.end)
  {
    var segs := Segments(sizes);
    SuggestOfPick(sizes, segs);
    if sizes != [] && Pick(segs).Some? {
      WidenTotals(sizes, segs[Pick(segs).value]);
      WidenAbsorbs(sizes, segs[Pick(segs).value]);
    }
  }

  /** Tables of one size form a single run. */
  lemma {:induction false} EqualRuns(sizes: seq<U64>, x: U64, n: nat)
    requires forall k :: 0 <= k < |sizes| ==> sizes[k] == x
    requires 0 < n <= |sizes|
    ensures var r := Runs(sizes, n); |r| == 1 && r[0].start == 0 && r[0].end == n && r[0].log == Log2(x)
    decreases n
  {
    if n > 1 {
      EqualRuns(sizes, x, n - 1);
    }
  }

  /** Two or more tables of one size are compacted whole. */
  lemma EqualSizesCompactWhole(sizes: seq<U64>, x: U64)
    requires Sum(sizes) < TWO64
    requires forall k :: 0 <= k < |sizes| ==> sizes[k] == x
    requires |sizes| >= 2
    ensures Suggest(sizes).Some?
    ensures Suggest(sizes).value.start == 0 && Suggest(sizes).value.end == |sizes|
    ensures Suggest(sizes).value.bytes == Sum(sizes) && Suggest(sizes).value.log == Log2(x)
  {
    EqualRuns(sizes, x, |sizes|);
    RunsLast(sizes, |sizes|);
    var segs := Runs(sizes, |sizes|);
    assert Pick(segs) == Some(0) by {
      assert segs[..0] == [];
    }
    WidenDone(sizes, segs[0]);
    assert Suggest(sizes) == Some(segs[0]);
  }

  /** Four tables of size 1 give the segment `[0, 4)`. */
  lemma SuggestEqualSizes(sizes: seq<U64>)
    requires sizes == [1, 1, 1, 1]
    ensures Positive(sizes) && Sum(sizes) < TWO64
    ensures Suggest(sizes) == Some(Segment(0, 4, 0, 4))
  {
    SumConst(sizes, 1, 4);
    assert Log2(1) == 0;
    EqualSizesCompactWhole(sizes, 1);
  }

  /** A large table followed by a small one: two single-table runs, so
      nothing to compact. */
  lemma SuggestNoRun()
    ensures Suggest([100, 1]).None?
  {
    var sizes: seq<U64> := [100, 1];
    assert Log2(1) == 0 && Log2(100) == 6;
    assert Runs(sizes, 1) == [Segment(0, 1, 6, 100)];
    assert Runs(sizes, 2) == [Segment(0, 1, 6, 100), Segment(1, 2, 0, 1)];
  }

  /** Two tables of size 1 after one of size 2: the pair is picked and then
      widened over the table before it, whose log2 its total matches. */
  lemma SuggestWidens()
    ensures Suggest([2, 1, 1]) == Some(Segment(0, 3, 0, 4))
  {
    var sizes: seq<U64> := [2, 1, 1];
    var rs := Runs(sizes, 3);
    WidensRuns(sizes, rs);
    PickSecond(rs);
    WidensWiden(sizes);
  }

  lemma WidensRuns(sizes: seq<U64>, rs: seq<Segment>)
    requires sizes == [2, 1, 1] && rs == Runs(sizes, 3)
    ensures rs == [Segment(0, 1, 1, 2), Segment(1, 3, 0, 2)]
  {
    WidensRunsTwo(sizes);
    assert Log2(1) == 0;
  }

  lemma WidensRunsTwo(sizes: seq<U64>)
    requires sizes == [2, 1, 1]
    ensures Runs(sizes, 2) == [Segment(0, 1, 1, 2), Segment(1, 2, 0, 1)]
  {
    assert Log2(1) == 0 && Log2(2) == 1;
    assert Runs(sizes, 1) == [Segment(0, 1, 1, 2)];
  }

  /** Of two segments, only the second of which has two or more tables,
      the second is picked. */
  lemma PickSecond(rs: seq<Segment>)
    requires |rs| == 2 && Size(rs[0]) < 2 && Size(rs[1]) >= 2
    ensures Pick(rs) == Some(1)
  {
    assert rs[..1][..0] == [];
  }

  lemma WidensWiden(sizes: seq<U64>)
    requires sizes == [2, 1, 1]
    ensures Widen(sizes, Segment(1, 3, 0, 2)) == Segment(0, 3, 0, 4)
  {
    assert Log2(2) == 1;
    assert Takes(sizes, Segment(1, 3, 0, 2));
    WidenDone(sizes, Segment(0, 3, 0, 4));
  }

  /** `suggestCompactionSegment(sizes)`: the first run of two or more tables
      with the strictly smallest log2, widened to the left. Every size is
      positive (`log2` panics on 0) and the total is assumed to fit in the
      `uint64` running sums. */
  method SuggestCompactionSegment(sizes: seq<U64>) returns (r: Option<Segment>)
    requires Positive(sizes) && Sum(sizes) < TWO64
    ensures r == Suggest(sizes)
  {
    var segs := SizesToSegments(sizes);
    var minSeg := Segment(0, 0, 64, 0);
    var k := 0;
    while k < |segs|
      invariant 0 <= k <= |segs|
      invariant sizes != [] ==> minSeg == match Pick(segs[..k]) case None => Segment(0, 0, 64, 0) case Some(j) => segs[j]
      invariant sizes == [] ==> minSeg == if k == 0 then Segment(0, 0, 64, 0) else Segment(0, 0, 0, 0)
    {
      var st := segs[k];
      ghost var pick := Pick(segs[..k]);
      if sizes != [] {
        SegmentAt(sizes, segs, k);
        PickStep(segs, k, pick);
      }
      if Size(st) != 1 {
        if st.log < minSeg.log {
          minSeg := st;
        }
      }
      k := k + 1;
    }
    assert segs[..k] == segs;
    SuggestOfPick(sizes, segs);
    if Size(minSeg) == 0 {
      return None;
    }
    assert sizes != [] && Pick(segs).Some?;
    ghost var seed := minSeg;
    while minSeg.start > 0
      invariant minSeg.start < minSeg.end <= |sizes|
      invariant minSeg.bytes == SumRange(sizes, minSeg.start, minSeg.end)
      invariant Widen(sizes, minSeg) == Widen(sizes, seed)
      decreases minSeg.start
    {
      var prev := minSeg.start - 1;
      SumPositive(sizes, minSeg.start, minSeg.end);
      var lb := ComputeLog2(minSeg.bytes);
      var lp := ComputeLog2(sizes[prev]);
      if lb < lp {
        assert !Takes(sizes, minSeg);
        break;
      }
      var t := WidenStep(sizes, minSeg);
      minSeg := minSeg.(start := prev, bytes := Add64(minSeg.bytes, sizes[prev]));
      assert minSeg == t;
    }
    WidenDone(sizes, minSeg);
    return Some(minSeg);
  }

  /** What the scan needs of one segment of a non-empty stack. */
  lemma SegmentAt(sizes: seq<U64>, segs: seq<Segment>, k: nat)
    requires Sum(sizes) < TWO64 && sizes != []
    requires segs == Segments(sizes) && k < |segs|
    ensures 1 <= Size(segs[k]) && segs[k].log < 64
  {
    RunsAreRuns(sizes, |sizes|);
    RunAt(sizes, |sizes|, segs, k);
    Log2Below64(sizes[segs[k].start]);
  }
}
