/** The block layer of c/block.c: a writer that appends prefix-compressed
    entries to a caller's buffer and records restart points, the trailer
    `finish` writes (the restart offsets, their count, and the block length
    in the header), the reader that recovers that layout, and the iterator
    that walks the entries and seeks to a key. The key and payload coders
    are those of record.go; `binsearch` over the restart keys is given as
    its result. */
module Blocks {
  import opened Bytes
  import opened VarInt
  import opened Keys
  import opened Records
  import opened LogRecords
  import opened AnyRecords
  import opened Sequences

  /** `restart_interval`: every sixteenth entry is written against an empty
      previous key. */
  const RestartInterval: nat := 16

  /** `MAX_RESTARTS`: the most restart points a block records, the largest
      count its 16-bit field holds. */
  const MaxRestarts: nat := 0xffff

  const TWO24: nat := 0x100_0000
  const TWO32: nat := 0x1_0000_0000

  // ---------------------------------------------------------------------
  // The entries of a block

  /** What the writer takes from a record (`record_key`, `record_val_type`
      and the bytes `record_encode` writes): the block layer sees records
      only through these. */
  datatype Entry = Entry(key: seq<Byte>, valType: Byte, payload: seq<Byte>)

  function EntryOf(r: Record): Entry
    requires Encodable(r)
  {
    Entry(Key(r), ValType(r), Payload(r))
  }

  /** An entry whose key length fits the varints `encode_key` writes. */
  predicate Addable(e: Entry)
  {
    |e.key| < TWO63
  }

  predicate AllAddable(rs: seq<Entry>)
  {
    forall i :: 0 <= i < |rs| ==> Addable(rs[i])
  }

  /** The key the `i`-th entry is encoded against: none at every
      `RestartInterval`-th entry, the previous entry's key otherwise. */
  function PrevKey(rs: seq<Entry>, i: nat): seq<Byte>
    requires i < |rs|
  {
    if i % RestartInterval == 0 then [] else rs[i - 1].key
  }

  /** The `i`-th entry: its key against `PrevKey`, then its payload. */
  function EntryBytes(rs: seq<Entry>, i: nat): seq<Byte>
    requires i < |rs| && Addable(rs[i])
  {
    KeyBytes(PrevKey(rs, i), rs[i].key, rs[i].valType) + rs[i].payload
  }

  /** The entries of `rs`, each as its own byte string. */
  function EntryList(rs: seq<Entry>): (es: seq<seq<Byte>>)
    requires AllAddable(rs)
    ensures |es| == |rs|
  {
    seq(|rs|, i requires 0 <= i < |rs| && AllAddable(rs) => EntryBytes(rs, i))
  }

  /** The entries of `rs`, one after the other. */
  function Entries(rs: seq<Entry>): seq<Byte>
    requires AllAddable(rs)
  {
    Concat(EntryList(rs))
  }

  /** Where the `i`-th entry starts, counted from the first entry. */
  function Offset(rs: seq<Entry>, i: nat): nat
    requires i <= |rs| && AllAddable(rs)
  {
    |Concat(EntryList(rs)[..i])|
  }

  /** Whether the `i`-th entry's key shares no prefix with the key it is
      encoded against, which makes it a restart candidate. */
  predicate SharesNothing(rs: seq<Entry>, i: nat)
    requires i < |rs|
  {
    CommonPrefix(PrevKey(rs, i), rs[i].key) == 0
  }

  /** The restart offsets among `starts`: each start whose flag is set,
      as long as fewer than `MaxRestarts` are taken. */
  function RestartPoints(flags: seq<bool>, starts: seq<nat>): seq<nat>
    requires |flags| == |starts|
  {
    if flags == [] then []
    else
      var n := |flags| - 1;
      var before := RestartPoints(flags[..n], starts[..n]);
      if flags[n] && |before| < MaxRestarts then before + [starts[n]] else before
  }

  /** Taken from strictly increasing starts, the restart offsets are some
      of them, strictly increasing, at most `MaxRestarts`; a flagged first
      start is the first of them. */
  lemma {:induction false} RestartPointsShape(flags: seq<bool>, starts: seq<nat>)
    requires |flags| == |starts|
    requires forall i, j :: 0 <= i < j < |starts| ==> starts[i] < starts[j]
    ensures |RestartPoints(flags, starts)| <= MaxRestarts
    ensures forall j :: 0 <= j < |RestartPoints(flags, starts)| ==> RestartPoints(flags, starts)[j] in starts
    ensures forall j, k :: 0 <= j < k < |RestartPoints(flags, starts)| ==>
                             RestartPoints(flags, starts)[j] < RestartPoints(flags, starts)[k]
    ensures flags != [] && flags[0] ==> |RestartPoints(flags, starts)| > 0 && RestartPoints(flags, starts)[0] == starts[0]
    decreases |flags|
  {
    if flags != [] {
      var n := |flags| - 1;
      var before := RestartPoints(flags[..n], starts[..n]);
      RestartPointsShape(flags[..n], starts[..n]);
      forall j | 0 <= j < |before|
        ensures before[j] in starts && before[j] < starts[n]
      {
        var i :| 0 <= i < n && starts[..n][i] == before[j];
      }
      if n == 0 {
        assert before == [];
      } else {
        assert flags[..n][0] == flags[0] && starts[..n][0] == starts[0];
      }
    }
  }

  /** Which entries share nothing with the key they are encoded against. */
  function Flags(rs: seq<Entry>): (f: seq<bool>)
    ensures |f| == |rs|
  {
    seq(|rs|, i requires 0 <= i < |rs| => SharesNothing(rs, i))
  }

  /** Where each entry starts, in a block whose entries start at `base`. */
  function Starts(rs: seq<Entry>, base: nat): (s: seq<nat>)
    requires AllAddable(rs)
    ensures |s| == |rs|
  {
    seq(|rs|, i requires 0 <= i < |rs| && AllAddable(rs) => base + Offset(rs, i))
  }

  /** The restart offsets the writer records for `rs` in a block whose
      entries start at `base`. */
  function Restarts(rs: seq<Entry>, base: nat): seq<nat>
    requires AllAddable(rs)
  {
    RestartPoints(Flags(rs), Starts(rs, base))
  }

  /** An entry depends only on the records up to it. */
  lemma EntryListPrefix(rs: seq<Entry>, k: nat)
    requires AllAddable(rs) && k <= |rs|
    ensures AllAddable(rs[..k]) && EntryList(rs[..k]) == EntryList(rs)[..k]
  {
    assert AllAddable(rs[..k]);
    forall i | 0 <= i < k
      ensures EntryList(rs[..k])[i] == EntryList(rs)[i]
    {
      assert PrevKey(rs[..k], i) == PrevKey(rs, i);
    }
  }

  /** One more record appends its entry. */
  lemma EntriesSnoc(rs: seq<Entry>, e: Entry)
    requires AllAddable(rs) && Addable(e)
    ensures AllAddable(rs + [e])
    ensures EntryList(rs + [e]) == EntryList(rs) + [EntryBytes(rs + [e], |rs|)]
    ensures Entries(rs + [e]) == Entries(rs) + EntryBytes(rs + [e], |rs|)
    ensures Offset(rs + [e], |rs|) == |Entries(rs)|
  {
    var t := rs + [e];
    assert AllAddable(t);
    assert t[..|rs|] == rs;
    EntryListPrefix(t, |rs|);
    assert EntryList(t) == EntryList(t)[..|rs|] + [EntryList(t)[|rs|]];
    ConcatSnoc(EntryList(rs), EntryBytes(t, |rs|));
  }

  /** An entry is its key's bytes followed by its payload. */
  lemma EntryBytesParts(rs: seq<Entry>, i: nat)
    requires i < |rs| && Addable(rs[i])
    ensures EntryBytes(rs, i) == KeyBytes(PrevKey(rs, i), rs[i].key, rs[i].valType) + rs[i].payload
  {
  }

  /** An entry's key takes at least its two varints. */
  lemma EntryBytesLength(rs: seq<Entry>, i: nat)
    requires i < |rs| && Addable(rs[i])
    ensures |EntryBytes(rs, i)| >= 2
  {
  }

  lemma EntriesNonEmpty(rs: seq<Entry>)
    requires AllAddable(rs)
    ensures forall k :: 0 <= k < |rs| ==> |EntryList(rs)[k]| > 0
  {
    forall k | 0 <= k < |rs|
      ensures |EntryList(rs)[k]| > 0
    {
      EntryBytesLength(rs, k);
    }
  }

  /** Each entry sits between its offset and the next, and the entries of
      a prefix are a prefix of the entries. */
  lemma EntriesSplit(rs: seq<Entry>, i: nat)
    requires AllAddable(rs) && i < |rs|
    ensures Offset(rs, i + 1) == Offset(rs, i) + |EntryBytes(rs, i)| <= |Entries(rs)|
    ensures Entries(rs)[..Offset(rs, i)] == Entries(rs[..i])
    ensures Entries(rs)[Offset(rs, i)..Offset(rs, i + 1)] == EntryBytes(rs, i)
  {
    ConcatSplit(EntryList(rs), i);
    EntryListPrefix(rs, i);
  }

  /** Offsets grow strictly from one entry to the next. */
  lemma OffsetsIncrease(rs: seq<Entry>, i: nat, j: nat)
    requires AllAddable(rs) && i < j <= |rs|
    ensures Offset(rs, i) < Offset(rs, j) <= |Entries(rs)|
  {
    EntriesNonEmpty(rs);
    ConcatStartsIncrease(EntryList(rs), i, j);
  }

  /** The restart offsets are entry starts, in strictly increasing order,
      at most `MaxRestarts` of them; the first entry is always one. */
  lemma RestartsShape(rs: seq<Entry>, base: nat)
    requires AllAddable(rs)
    ensures |Restarts(rs, base)| <= MaxRestarts
    ensures forall j :: 0 <= j < |Restarts(rs, base)| ==> Restarts(rs, base)[j] in Starts(rs, base)
    ensures forall j, k :: 0 <= j < k < |Restarts(rs, base)| ==> Restarts(rs, base)[j] < Restarts(rs, base)[k]
    ensures rs != [] ==> |Restarts(rs, base)| > 0 && Restarts(rs, base)[0] == base
  {
    var starts := Starts(rs, base);
    forall i, j | 0 <= i < j < |starts|
      ensures starts[i] < starts[j]
    {
      OffsetsIncrease(rs, i, j);
    }
    RestartPointsShape(Flags(rs), starts);
    if rs != [] {
      assert PrevKey(rs, 0) == [];
      assert Offset(rs, 0) == 0;
    }
  }

  /** One more record: its start is recorded exactly when it shares nothing
      with the key before it and fewer than `MaxRestarts` are recorded. */
  lemma RestartsSnoc(rs: seq<Entry>, e: Entry, base: nat)
    requires AllAddable(rs) && Addable(e)
    ensures AllAddable(rs + [e])
    ensures Restarts(rs + [e], base)
            == Restarts(rs, base)
               + (if SharesNothing(rs + [e], |rs|) && |Restarts(rs, base)| < MaxRestarts
                  then [base + |Entries(rs)|] else [])
  {
    var t := rs + [e];
    FlagsSnoc(rs, e);
    StartsSnoc(rs, e, base);
    var flags, starts := Flags(t), Starts(t, base);
    var before := Restarts(rs, base);
    assert before == RestartPoints(Flags(rs), Starts(rs, base));
    var f, st := SharesNothing(t, |rs|), base + |Entries(rs)|;
    RestartPointsSnoc(flags, starts, Flags(rs), Starts(rs, base), f, st);
    var tail := if f && |before| < MaxRestarts then [st] else [];
    assert Restarts(t, base) == RestartPoints(flags, starts) == before + tail;
  }

  lemma FlagsSnoc(rs: seq<Entry>, e: Entry)
    ensures Flags(rs + [e])[..|rs|] == Flags(rs)
    ensures Flags(rs + [e])[|rs|] == SharesNothing(rs + [e], |rs|)
  {
    var t := rs + [e];
    forall i | 0 <= i < |rs|
      ensures Flags(t)[i] == Flags(rs)[i]
    {
      assert PrevKey(t, i) == PrevKey(rs, i);
    }
  }

  lemma StartsSnoc(rs: seq<Entry>, e: Entry, base: nat)
    requires AllAddable(rs) && Addable(e)
    ensures AllAddable(rs + [e])
    ensures Starts(rs + [e], base)[..|rs|] == Starts(rs, base)
    ensures Starts(rs + [e], base)[|rs|] == base + |Entries(rs)|
  {
    var t := rs + [e];
    var n := |rs|;
    assert AllAddable(t);
    assert t[..n] == rs;
    EntryListPrefix(t, n);
    forall i | 0 <= i < n
      ensures Starts(t, base)[i] == Starts(rs, base)[i]
    {
      assert EntryList(t)[..n][..i] == EntryList(t)[..i];
    }
  }

  lemma RestartPointsSnoc(flags: seq<bool>, starts: seq<nat>, flags0: seq<bool>, starts0: seq<nat>, f: bool, st: nat)
    requires |flags| == |starts| == |flags0| + 1
    requires flags[..|flags0|] == flags0 && starts[..|flags0|] == starts0
    requires flags[|flags0|] == f && starts[|flags0|] == st
    ensures RestartPoints(flags, starts)
            == RestartPoints(flags0, starts0) + (if f && |RestartPoints(flags0, starts0)| < MaxRestarts then [st] else [])
  {
  }

  /** `RestartsSnoc` as the writer decides it: `taken` says whether the new
      entry's start is recorded. */
  lemma RestartTaken(rs: seq<Entry>, e: Entry, base: nat, taken: bool)
    requires AllAddable(rs) && Addable(e)
    requires taken == (SharesNothing(rs + [e], |rs|) && |Restarts(rs, base)| < MaxRestarts)
    ensures AllAddable(rs + [e])
    ensures taken ==> Restarts(rs + [e], base) == Restarts(rs, base) + [base + |Entries(rs)|]
    ensures !taken ==> Restarts(rs + [e], base) == Restarts(rs, base)
  {
    RestartsSnoc(rs, e, base);
  }

  // ---------------------------------------------------------------------
  // Writing into the caller's buffer

  /** `b` with `bytes` written over it from `at` on. */
  function Overwrite(b: seq<Byte>, at: nat, bytes: seq<Byte>): (r: seq<Byte>)
    requires at + |bytes| <= |b|
    ensures |r| == |b| && r[at..at + |bytes|] == bytes
    ensures r[..at] == b[..at] && r[at + |bytes|..] == b[at + |bytes|..]
  {
    b[..at] + bytes + b[at + |bytes|..]
  }

  /** Two writes one after the other put their concatenation in place. */
  lemma OverwriteTwice(b: seq<Byte>, at: nat, x: seq<Byte>, y: seq<Byte>)
    requires at + |x| + |y| <= |b|
    ensures var r := Overwrite(Overwrite(b, at, x), at + |x|, y);
      r[at..at + |x| + |y|] == x + y && r[..at] == b[..at] && |r| == |b|
  {
    var r1 := Overwrite(b, at, x);
    var r := Overwrite(r1, at + |x|, y);
    assert r[..at] == r[..at + |x|][..at] == r1[..at + |x|][..at];
    SliceJoin(r, at, at + |x|, at + |x| + |y|, r1[at..at + |x|], y);
  }

  /** Copies `bytes` into `a` at `at`, leaving every other byte alone. */
  method Put(a: array<Byte>, at: nat, bytes: seq<Byte>)
    requires at + |bytes| <= a.Length
    modifies a
    ensures a[..] == Overwrite(old(a[..]), at, bytes)
  {
    ghost var b := a[..];
    forall i | at <= i < at + |bytes| {
      a[i] := bytes[i - at];
    }
    assert a[..] == Overwrite(b, at, bytes) by {
      var r := Overwrite(b, at, bytes);
      forall i | 0 <= i < a.Length
        ensures a[i] == r[i]
      {
        if i < at {
          assert r[i] == r[..at][i];
        } else if i >= at + |bytes| {
          assert r[i] == r[at + |bytes|..][i - at - |bytes|];
        } else {
          assert r[i] == r[at..at + |bytes|][i - at];
        }
      }
    }
  }

  /** How a writer's fields describe its buffer `b`: the entries of
      `added` lie between `start` and `next`, the restarts are theirs,
      `lastKey` is the last key added, and once there is an entry, the
      restart table and its count fit behind it in `blockSize`. */
  ghost predicate Layout(b: seq<Byte>, start: nat, blockSize: nat, next: nat, entries: nat,
                         restarts: seq<nat>, lastKey: seq<Byte>, added: seq<Entry>)
  {
    && start <= blockSize <= |b|
    && AllAddable(added)
    && entries == |added|
    && next == start + |Entries(added)|
    && next <= blockSize
    && b[start..next] == Entries(added)
    && restarts == Restarts(added, start)
    && lastKey == (if added == [] then [] else added[|added| - 1].key)
    && (added != [] ==> next + 3 * |restarts| + 2 <= blockSize)
  }

  lemma LayoutEmpty(b: seq<Byte>, start: nat, blockSize: nat)
    requires start <= blockSize <= |b|
    ensures Layout(b, start, blockSize, start, 0, [], [], [])
  {
    assert Entries([]) == [];
  }

  /** What the writer reads off its layout without the bytes. */
  lemma LayoutShape(b: seq<Byte>, start: nat, blockSize: nat, next: nat, entries: nat,
                    restarts: seq<nat>, lastKey: seq<Byte>, added: seq<Entry>)
    requires Layout(b, start, blockSize, next, entries, restarts, lastKey, added)
    ensures start <= next <= blockSize <= |b| && AllAddable(added) && entries == |added|
    ensures restarts == Restarts(added, start)
    ensures lastKey == if added == [] then [] else added[|added| - 1].key
  {
  }

  /** The entries a layout holds. */
  lemma LayoutBytes(b: seq<Byte>, start: nat, blockSize: nat, next: nat, entries: nat,
                    restarts: seq<nat>, lastKey: seq<Byte>, added: seq<Entry>)
    requires Layout(b, start, blockSize, next, entries, restarts, lastKey, added)
    ensures AllAddable(added) && next == start + |Entries(added)| <= |b| && b[start..next] == Entries(added)
  {
  }

  /** The layout depends only on the bytes before `next`. */
  lemma LayoutFrame(b: seq<Byte>, b': seq<Byte>, start: nat, blockSize: nat, next: nat, entries: nat,
                    restarts: seq<nat>, lastKey: seq<Byte>, added: seq<Entry>)
    requires Layout(b, start, blockSize, next, entries, restarts, lastKey, added)
    requires |b'| == |b| && b'[..next] == b[..next]
    ensures Layout(b', start, blockSize, next, entries, restarts, lastKey, added)
  {
    assert b'[start..next] == b'[..next][start..] == b[..next][start..];
  }

  /** The layout after one more entry, from the facts about its parts. */
  lemma LayoutGrow(b: seq<Byte>, start: nat, blockSize: nat, next: nat, n: nat,
                   restarts: seq<nat>, added: seq<Entry>, e: Entry)
    requires AllAddable(added) && AllAddable(added + [e]) && start <= next && next == start + |Entries(added)|
    requires next + n + 3 * |restarts| + 2 <= blockSize <= |b|
    requires b[start..next] == Entries(added) && b[next..next + n] == EntryBytes(added + [e], |added|)
    requires Entries(added + [e]) == Entries(added) + EntryBytes(added + [e], |added|)
    requires restarts == Restarts(added + [e], start)
    ensures Layout(b, start, blockSize, next + n, |added| + 1, restarts, e.key, added + [e])
  {
    hide KeyBytes;
    var t := added + [e];
    var entries := Entries(t);
    assert |entries| == |Entries(added)| + n;
    SliceJoin(b, start, next, next + n, Entries(added), EntryBytes(t, |added|));
    assert b[start..next + n] == entries;
    assert e.key == t[|t| - 1].key;
  }

  /** Registering an entry written at `next`: the layout of one more
      record, with its start recorded exactly when `taken`, and the count
      of restarts that registering it leaves. */
  lemma LayoutAdd(b: seq<Byte>, start: nat, blockSize: nat, next: nat, entries: nat,
                  restarts: seq<nat>, lastKey: seq<Byte>, added: seq<Entry>, e: Entry, n: nat, taken: bool)
    requires Layout(b, start, blockSize, next, entries, restarts, lastKey, added)
    requires Addable(e) && n == |EntryBytes(added + [e], |added|)| && next + n <= |b|
    requires b[next..next + n] == EntryBytes(added + [e], |added|)
    requires taken == (SharesNothing(added + [e], |added|) && |restarts| < MaxRestarts)
    ensures AllAddable(added + [e])
    ensures |Restarts(added + [e], start)| == |restarts| + (if taken then 1 else 0)
    ensures next + n + 3 * |Restarts(added + [e], start)| + 2 <= blockSize ==>
              Layout(b, start, blockSize, next + n, entries + 1, if taken then restarts + [next] else restarts,
                     e.key, added + [e])
  {
    hide KeyBytes;
    EntriesSnoc(added, e);
    RestartTaken(added, e, start, taken);
    var restarts' := if taken then restarts + [next] else restarts;
    assert restarts' == Restarts(added + [e], start);
    if next + n + 3 * |restarts'| + 2 <= blockSize {
      LayoutGrow(b, start, blockSize, next, n, restarts', added, e);
    }
  }

  /** Writing `x` and then `y` right after it is writing `x + y`. */
  lemma OverwriteAppend(b: seq<Byte>, at: nat, x: seq<Byte>, y: seq<Byte>)
    requires at + |x| + |y| <= |b|
    ensures Overwrite(Overwrite(b, at, x), at + |x|, y) == Overwrite(b, at, x + y)
  {
    var r1 := Overwrite(b, at, x);
    assert r1[..at + |x|] == b[..at] + x;
    assert r1[at + |x| + |y|..] == b[at + |x| + |y|..];
  }

  // ---------------------------------------------------------------------
  // Finishing a block

  /** The restart table: every offset as three big-endian bytes. */
  function U24s(offs: seq<nat>): (r: seq<Byte>)
    ensures |r| == 3 * |offs|
  {
    if offs == [] then [] else U24s(offs[..|offs| - 1]) + BigEndian(offs[|offs| - 1], 3)
  }

  /** The `i`-th offset of the table is at `3 * i`. */
  lemma {:induction false} U24sAt(offs: seq<nat>, i: nat)
    requires i < |offs|
    ensures U24s(offs)[3 * i..3 * i + 3] == BigEndian(offs[i], 3)
    decreases |offs|
  {
    var n := |offs| - 1;
    var init := U24s(offs[..n]);
    assert U24s(offs) == init + BigEndian(offs[n], 3);
    if i < n {
      U24sAt(offs[..n], i);
      assert U24s(offs)[3 * i..3 * i + 3] == init[3 * i..3 * i + 3];
    } else {
      assert U24s(offs)[3 * i..] == BigEndian(offs[n], 3);
    }
  }

  /** What `finish` appends to the entries of a block that is not a log
      block: the restart table, then the number of restarts in two bytes. */
  function Trailer(restarts: seq<nat>): (t: seq<Byte>)
    ensures |t| == 3 * |restarts| + 2
  {
    U24s(restarts) + BigEndian(|restarts|, 2)
  }

  /** The loop of `finish` and the count after it: `restarts` as 24-bit
      values from `at` on, then their number as a 16-bit value; `end` is
      where the trailer ends. */
  method PutTrailer(a: array<Byte>, at: nat, restarts: seq<nat>) returns (end: nat)
    requires at + 3 * |restarts| + 2 <= a.Length
    modifies a
    ensures end == at + 3 * |restarts| + 2
    ensures a[..] == Overwrite(old(a[..]), at, Trailer(restarts))
  {
    hide Overwrite;
    ghost var b0 := a[..];
    end := at;
    var i := 0;
    while i < |restarts|
      invariant 0 <= i <= |restarts| && end == at + 3 * i
      invariant a[..] == Overwrite(b0, at, U24s(restarts[..i]))
    {
      assert restarts[..i + 1] == restarts[..i] + [restarts[i]];
      Put(a, end, BigEndian(restarts[i], 3));
      OverwriteAppend(b0, at, U24s(restarts[..i]), BigEndian(restarts[i], 3));
      end := end + 3;
      i := i + 1;
    }
    assert restarts[..i] == restarts;
    Put(a, end, BigEndian(|restarts|, 2));
    OverwriteAppend(b0, at, U24s(restarts), BigEndian(|restarts|, 2));
    end := end + 2;
  }

  /** A finished block that is not a log block, with the entries of `es`
      behind the header at `headerOff`: its size in the three bytes after
      the type byte, the entries from `headerOff + 4` on, then the trailer,
      which ends at `size`. */
  ghost predicate Finished(b: seq<Byte>, headerOff: nat, es: seq<Entry>, size: nat)
  {
    && AllAddable(es)
    && var start := headerOff + 4;
       var end := start + |Entries(es)|;
       && size == end + 3 * |Restarts(es, start)| + 2 <= |b|
       && b[headerOff + 1..start] == BigEndian(size, 3)
       && b[start..end] == Entries(es)
       && b[end..size] == Trailer(Restarts(es, start))
  }

  /** The three writes of `finish`, after a layout of `es` ending at `next`,
      leave a finished block and the bytes up to the type byte alone. */
  lemma FinishImage(b0: seq<Byte>, headerOff: nat, next: nat, es: seq<Entry>, restarts: seq<nat>, size: nat, b: seq<Byte>)
    requires AllAddable(es) && next == headerOff + 4 + |Entries(es)|
    requires restarts == Restarts(es, headerOff + 4) && size == next + 3 * |restarts| + 2 <= |b0|
    requires b0[headerOff + 4..next] == Entries(es)
    requires b == Overwrite(Overwrite(b0, next, Trailer(restarts)), headerOff + 1, BigEndian(size, 3))
    ensures Finished(b, headerOff, es, size)
    ensures b[..headerOff + 1] == b0[..headerOff + 1]
  {
    hide Entries, Restarts, Trailer;
    var start := headerOff + 4;
    var b1 := Overwrite(b0, next, Trailer(restarts));
    assert b1[start..next] == b1[..next][start..];
    assert b[start..next] == b[start..][..next - start];
    assert b[start..] == b1[start..];
    assert b[next..size] == b[start..][next - start..size - start];
    assert b1[next..size] == b1[start..][next - start..size - start];
    assert b[..headerOff + 1] == b1[..headerOff + 1] == b0[..headerOff + 1] by {
      assert b[..headerOff + 1] == b1[..headerOff + 1];
      assert b1[..headerOff + 1] == b1[..next][..headerOff + 1];
    }
  }

  /** `struct block_writer`: it appends entries to `buf` from `next` on, up
      to `blockSize`, and keeps the restart offsets apart until `Finish`.
      `added` holds the entries of the records added so far. */
  class BlockWriter {
    const buf: array<Byte>
    const blockSize: nat
    const headerOff: nat
    var next: nat
    var entries: nat
    var restartInterval: nat
    var restarts: seq<nat>
    var restartCap: nat
    var lastKey: seq<Byte>
    ghost var added: seq<Entry>

    ghost predicate Valid()
      reads this, buf
    {
      && restartInterval == RestartInterval
      && |restarts| <= restartCap
      && Layout(buf[..], headerOff + 4, blockSize, next, entries, restarts, lastKey, added)
    }

    /** `block_writer_init`: the type byte goes at `headerOff` and the
        entries start four bytes later. */
    constructor Init(typ: Byte, buf: array<Byte>, blockSize: nat, headerOff: nat)
      requires headerOff + 4 <= blockSize <= buf.Length
      modifies buf
      ensures Valid() && added == []
      ensures this.buf == buf && this.blockSize == blockSize && this.headerOff == headerOff
      ensures next == headerOff + 4 && restartInterval == 16
      ensures buf[headerOff] == typ
      ensures forall i :: 0 <= i < buf.Length && i != headerOff ==> buf[i] == old(buf[i])
    {
      this.buf := buf;
      this.blockSize := blockSize;
      this.headerOff := headerOff;
      buf[headerOff] := typ;
      next := headerOff + 4;
      restartInterval := 16;
      entries := 0;
      restarts := [];
      restartCap := 0;
      lastKey := [];
      added := [];
      LayoutEmpty(buf[..], headerOff + 4, blockSize);
    }

    /** `block_writer_type`. */
    function WriterType(): Byte
      reads this, buf
      requires headerOff < buf.Length
    {
      buf[headerOff]
    }

    /** `block_writer_add`: the record is added exactly when its entry and
        the restart table it leaves fit in the block; otherwise nothing
        before `next`, and no field, changes. */
    method Add(rec: Record) returns (ok: bool)
      requires Valid() && Encodable(rec) && |Key(rec)| < TWO63
      modifies this, buf
      ensures Valid()
      ensures ok <==> old(next) + |EntryBytes(old(added) + [EntryOf(rec)], |old(added)|)|
                      + 3 * |Restarts(old(added) + [EntryOf(rec)], headerOff + 4)| + 2 <= blockSize
      ensures added == if ok then old(added) + [EntryOf(rec)] else old(added)
      ensures !ok ==> next == old(next) && entries == old(entries) && restarts == old(restarts)
                      && lastKey == old(lastKey) && restartCap == old(restartCap)
      ensures buf[..old(next)] == old(buf[..next])
    {
      hide KeyBytes, Layout, Restarts, Entries, EntryBytes, Payload, CommonPrefix, Overwrite;
      LayoutShape(buf[..], headerOff + 4, blockSize, next, entries, restarts, lastKey, added);
      var last := lastKey;
      if entries % restartInterval == 0 {
        last := [];
      }
      ghost var e := EntryOf(rec);
      ghost var t := added + [e];
      assert AllAddable(t);
      assert last == PrevKey(t, |added|);
      EntryBytesParts(t, |added|);
      ghost var b0 := buf[..];
      var n, restart, fits := WriteEntry(rec, last);
      LayoutFrame(b0, buf[..], headerOff + 4, blockSize, next, entries, restarts, lastKey, added);
      if !fits {
        return false;
      }
      ok := RegisterRestart(n, restart, Key(rec), e);
    }

    /** The first two steps of `block_writer_add`: the key encoded against
        `last`, then the record's payload, each written at `next` when it
        fits in the room left before `blockSize`. When the key fits but the
        payload does not, the key's bytes stay written past `next`. */
    method WriteEntry(rec: Record, last: seq<Byte>) returns (n: nat, restart: bool, fits: bool)
      requires Encodable(rec) && |Key(rec)| < TWO63 && next <= blockSize <= buf.Length
      modifies buf
      ensures restart <==> CommonPrefix(last, Key(rec)) == 0
      ensures fits <==> next + |KeyBytes(last, Key(rec), ValType(rec))| + |Payload(rec)| <= blockSize
      ensures fits ==> n == |KeyBytes(last, Key(rec), ValType(rec))| + |Payload(rec)|
      ensures fits ==> buf[next..next + n] == KeyBytes(last, Key(rec), ValType(rec)) + Payload(rec)
      ensures |buf[..]| == |old(buf[..])| && buf[..next] == old(buf[..next])
    {
      hide KeyBytes, Payload, EncodeKey, CommonPrefix, Encoding, SuffixField;
      var room := blockSize - next;
      var key := Key(rec);
      var ek := EncodeKey(room, last, key, ValType(rec));
      EncodeKeyFits(room, last, key, ValType(rec));
      restart := ek.restart;
      if !ek.fits {
        return 0, restart, false;
      }
      ghost var b0 := buf[..];
      Put(buf, next, ek.bytes);
      var payload := Encode(rec, room - |ek.bytes|);
      if payload.None? {
        return 0, restart, false;
      }
      Put(buf, next + |ek.bytes|, payload.value);
      n := |ek.bytes| + |payload.value|;
      OverwriteTwice(b0, next, ek.bytes, payload.value);
      fits := true;
    }

    /** `block_writer_register_restart`, for an entry of `n` bytes already
        written at `next`: a restart is recorded when the key shares nothing
        with the previous one and fewer than `MaxRestarts` are recorded; the
        entry is kept when it fits together with the restart table. */
    method RegisterRestart(n: nat, restart: bool, key: seq<Byte>, ghost e: Entry) returns (ok: bool)
      requires Valid() && Addable(e) && key == e.key
      requires restart == SharesNothing(added + [e], |added|)
      requires n == |EntryBytes(added + [e], |added|)| && next + n <= blockSize
      requires buf[next..next + n] == EntryBytes(added + [e], |added|)
      modifies this
      ensures Valid()
      ensures ok <==> old(next) + n + 3 * |Restarts(old(added) + [e], headerOff + 4)| + 2 <= blockSize
      ensures added == if ok then old(added) + [e] else old(added)
      ensures !ok ==> next == old(next) && entries == old(entries) && restarts == old(restarts)
                      && lastKey == old(lastKey) && restartCap == old(restartCap)
    {
      hide KeyBytes, Layout, Restarts, Entries, EntryBytes;
      LayoutShape(buf[..], headerOff + 4, blockSize, next, entries, restarts, lastKey, added);
      var rlen := |restarts|;
      var restart' := restart;
      if rlen >= MaxRestarts {
        restart' := false;
      }
      if restart' {
        rlen := rlen + 1;
      }
      ghost var b := buf[..];
      assert buf[next..next + n] == b[next..next + n];
      LayoutAdd(b, headerOff + 4, blockSize, next, entries, restarts, lastKey, added, e, n, restart');
      if 2 + 3 * rlen + n > blockSize - next {
        return false;
      }
      var restarts' := restarts;
      var cap := restartCap;
      if restart' {
        if |restarts| == cap {
          cap := cap * 2 + 1;
        }
        restarts' := restarts + [next];
      }
      ghost var added' := added + [e];
      assert Layout(b, headerOff + 4, blockSize, next + n, entries + 1, restarts', key, added');
      restartCap := cap;
      restarts := restarts';
      next := next + n;
      lastKey := key;
      entries := entries + 1;
      added := added';
      assert buf[..] == b;
      return true;
    }

    /** `block_writer_finish` for a block that is not a log block: the
        restart offsets as 24-bit values and their 16-bit count after the
        entries, and the block's size in the three header bytes after the
        type; that size is returned and becomes `next`. */
    method Finish() returns (size: nat)
      requires Valid() && buf[headerOff] != BlockTypeLog
      requires next + 3 * |restarts| + 2 <= buf.Length
      modifies this, buf
      ensures size == next == old(next) + 3 * |restarts| + 2
      ensures buf[..headerOff + 1] == old(buf[..headerOff + 1])
      ensures Finished(buf[..], headerOff, added, size)
      ensures restarts == old(restarts) && added == old(added) && entries == old(entries) && lastKey == old(lastKey)
    {
      hide Layout, Entries, Restarts, Overwrite;
      LayoutShape(buf[..], headerOff + 4, blockSize, next, entries, restarts, lastKey, added);
      LayoutBytes(buf[..], headerOff + 4, blockSize, next, entries, restarts, lastKey, added);
      ghost var b0 := buf[..];
      var pos := PutTrailer(buf, next, restarts);
      Put(buf, headerOff + 1, BigEndian(pos, 3));
      FinishImage(b0, headerOff, next, added, restarts, pos, buf[..]);
      next := pos;
      size := pos;
    }
  }

  // ---------------------------------------------------------------------
  // Reading a block

  /** `struct block_reader`: the block's bytes, the offset of its header,
      `block_len` (where the entries end and the restart table starts), the
      block's size in the table, and the number of restart points. */
  datatype BlockReader = BlockReader(data: seq<Byte>, headerOff: nat, blockLen: nat,
                                     fullBlockSize: nat, restartCount: nat)

  datatype Opened = Opened(reader: BlockReader) | FormatError

  /** The 24-bit size in the three header bytes after the type byte. */
  function HeaderSize(data: seq<Byte>, headerOff: nat): nat
    requires headerOff + 4 <= |data|
  {
    FromBigEndian(data[headerOff + 1..headerOff + 4])
  }

  /** `block_reader_init` for a block that is not a log block: an unknown
      type byte is a format error; otherwise the count is the 16-bit value
      that ends at the header's size, the restart table is the `3 * count`
      bytes before it, and `block_len` is where that table starts, computed
      in 32-bit unsigned arithmetic. A table block size of 0 means the
      block is as large as its header says. The reads are unchecked: the
      header and the two bytes before the size must lie in `data`. */
  function ReaderInit(data: seq<Byte>, headerOff: nat, tableBlockSize: nat): (r: Opened)
    requires headerOff + 4 <= |data| && data[headerOff] != BlockTypeLog
    requires IsBlockType(data[headerOff]) ==> 2 <= HeaderSize(data, headerOff) <= |data|
    ensures r.FormatError? <==> !IsBlockType(data[headerOff])
    ensures r.Opened? ==> r.reader.data == data && r.reader.headerOff == headerOff
                          && r.reader.restartCount < 0x1_0000 && r.reader.blockLen < TWO32
  {
    if !IsBlockType(data[headerOff]) then FormatError
    else
      var sz := HeaderSize(data, headerOff);
      var full := if tableBlockSize == 0 then sz else tableBlockSize;
      var count := FromBigEndian(data[sz - 2..sz]);
      FromBigEndianBound(data[headerOff + 1..headerOff + 4]);
      FromBigEndianBound(data[sz - 2..sz]);
      assert Pow256(2) == 0x1_0000 && Pow256(3) == TWO24;
      var start := sz - 2 - 3 * count;
      Opened(BlockReader(data, headerOff, if start >= 0 then start else start + TWO32, full, count))
  }

  /** `block_reader_type`. */
  function ReaderType(br: BlockReader): Byte
    requires br.headerOff < |br.data|
  {
    br.data[br.headerOff]
  }

  /** `block_reader_restart_offset`: the `i`-th 24-bit value of the restart
      table at `block_len`. */
  function RestartOffset(br: BlockReader, i: nat): (off: nat)
    requires br.blockLen + 3 * i + 3 <= |br.data|
    ensures off < TWO24
  {
    var field := br.data[br.blockLen + 3 * i..br.blockLen + 3 * i + 3];
    FromBigEndianBound(field);
    assert Pow256(3) == TWO24;
    FromBigEndian(field)
  }

  /** `block_reader_first_key`: the key of the entry at `header_off + 4`,
      decoded against an empty previous key. */
  function FirstKey(br: BlockReader): (r: Option<seq<Byte>>)
    requires br.headerOff + 4 <= br.blockLen <= |br.data|
  {
    match DecodeKey(br.data[br.headerOff + 4..br.blockLen], [])
    case None => None
    case Some(k) => Some(k.key)
  }

  /** What `block_iter_next` finds: the end of the entries, an entry that
      does not decode, or the decoded record, its key and where the next
      entry starts. */
  datatype Step = End | Corrupt | Item(record: Record, key: seq<Byte>, next: nat)

  /** `block_iter_next` at `off` with `last` as the previous key, decoding
      into a receiver of `receiver`'s kind. */
  function IterStep(br: BlockReader, off: nat, last: seq<Byte>, receiver: Record): (s: Step)
    requires br.blockLen <= |br.data|
    ensures s.End? <==> off >= br.blockLen
    ensures s.Item? ==> off < s.next <= br.blockLen && Type(s.record) == Type(receiver)
  {
    if off >= br.blockLen then End
    else
      var input := br.data[off..br.blockLen];
      DecodeKeyConsumes(input, last);
      match DecodeKey(input, last)
      case None => Corrupt
      case Some(k) =>
        match Decode(receiver, input[k.n..], k.key, k.extra)
        case None => Corrupt
        case Some(d) => Item(d.value, k.key, off + k.n + d.n)
  }

  // ---------------------------------------------------------------------
  // Reading back what the writer wrote

  /** Whether an iterator at entry `k` with previous key `last` decodes
      that entry as written: the entry shares nothing with its previous
      key, or `last` is that key. */
  predicate InSync(es: seq<Entry>, k: nat, last: seq<Byte>)
  {
    k < |es| ==> SharesNothing(es, k) || last == PrevKey(es, k)
  }

  /** What `Finished` says, conjunct by conjunct. */
  lemma FinishedParts(b: seq<Byte>, headerOff: nat, es: seq<Entry>, size: nat)
    requires Finished(b, headerOff, es, size)
    ensures AllAddable(es)
    ensures var start := headerOff + 4;
      var end := start + |Entries(es)|;
      && size == end + 3 * |Restarts(es, start)| + 2 <= |b|
      && b[headerOff + 1..start] == BigEndian(size, 3)
      && b[start..end] == Entries(es)
      && b[end..size] == Trailer(Restarts(es, start))
  {
  }

  /** The trailer's last two bytes are the count. */
  lemma TrailerCount(b: seq<Byte>, end: nat, size: nat, rs: seq<nat>)
    requires size == end + 3 * |rs| + 2 <= |b| && b[end..size] == Trailer(rs)
    ensures b[size - 2..size] == BigEndian(|rs|, 2)
  {
    hide U24s, BigEndian;
    var t := b[end..size];
    assert t[3 * |rs|..] == BigEndian(|rs|, 2);
    SliceOfSlice(b, end, size, 3 * |rs|, 3 * |rs| + 2);
  }

  /** The trailer's `j`-th three bytes are the `j`-th offset. */
  lemma TrailerAt(b: seq<Byte>, end: nat, size: nat, rs: seq<nat>, j: nat)
    requires size == end + 3 * |rs| + 2 <= |b| && b[end..size] == Trailer(rs) && j < |rs|
    ensures b[end + 3 * j..end + 3 * j + 3] == BigEndian(rs[j], 3)
  {
    hide U24s, BigEndian;
    var t := b[end..size];
    var u := U24s(rs);
    assert t[..3 * |rs|] == u;
    U24sAt(rs, j);
    SliceOfSlice(t, 0, 3 * |rs|, 3 * j, 3 * j + 3);
    SliceOfSlice(b, end, size, 3 * j, 3 * j + 3);
  }

  /** `ReaderInit` on a header whose size and count are known. */
  lemma ReaderInitOf(data: seq<Byte>, headerOff: nat, tableBlockSize: nat, size: nat, count: nat)
    requires headerOff + 4 <= |data| && data[headerOff] != BlockTypeLog && IsBlockType(data[headerOff])
    requires HeaderSize(data, headerOff) == size && 2 + 3 * count <= size <= |data|
    requires FromBigEndian(data[size - 2..size]) == count
    ensures ReaderInit(data, headerOff, tableBlockSize)
            == Opened(BlockReader(data, headerOff, size - 2 - 3 * count,
                                  if tableBlockSize == 0 then size else tableBlockSize, count))
  {
  }

  /** Opening a finished block recovers the restart count, every restart
      offset and, as `block_len`, the end of the entries. */
  lemma OpenFinished(b: seq<Byte>, headerOff: nat, es: seq<Entry>, size: nat, tableBlockSize: nat)
    requires Finished(b, headerOff, es, size) && size < TWO24
    requires headerOff < |b| && b[headerOff] != BlockTypeLog && IsBlockType(b[headerOff])
    ensures AllAddable(es) && headerOff + 4 <= |b| && HeaderSize(b, headerOff) == size
    ensures var rs := Restarts(es, headerOff + 4);
      && ReaderInit(b, headerOff, tableBlockSize)
         == Opened(BlockReader(b, headerOff, headerOff + 4 + |Entries(es)|,
                               if tableBlockSize == 0 then size else tableBlockSize, |rs|))
      && forall j :: 0 <= j < |rs| ==>
           RestartOffset(ReaderInit(b, headerOff, tableBlockSize).reader, j) == rs[j]
  {
    hide Finished, Entries, Restarts, Trailer, ReaderInit, RestartOffset, BigEndian, FromBigEndian, Pow256;
    FinishedParts(b, headerOff, es, size);
    var start := headerOff + 4;
    var end := start + |Entries(es)|;
    var rs := Restarts(es, start);
    TrailerCount(b, end, size, rs);
    RestartsShape(es, start);
    BigEndianSmall(size, 3);
    BigEndianSmall(|rs|, 2);
    ReaderInitOf(b, headerOff, tableBlockSize, size, |rs|);
    var br := BlockReader(b, headerOff, end, if tableBlockSize == 0 then size else tableBlockSize, |rs|);
    forall j | 0 <= j < |rs|
      ensures RestartOffset(br, j) == rs[j]
    {
      RestartOffsetFinished(br, es, size, j);
    }
  }

  /** The `j`-th restart offset of a finished block is the `j`-th offset
      the writer recorded. */
  lemma RestartOffsetFinished(br: BlockReader, es: seq<Entry>, size: nat, j: nat)
    requires AllAddable(es) && Finished(br.data, br.headerOff, es, size) && size < TWO24
    requires br.blockLen == br.headerOff + 4 + |Entries(es)| && j < |Restarts(es, br.headerOff + 4)|
    ensures br.blockLen + 3 * j + 3 <= |br.data|
    ensures RestartOffset(br, j) == Restarts(es, br.headerOff + 4)[j]
  {
    hide Finished, Entries, Restarts, Trailer, RestartOffset, BigEndian, FromBigEndian, Pow256;
    var start := br.headerOff + 4;
    var rs := Restarts(es, start);
    FinishedParts(br.data, br.headerOff, es, size);
    RestartsBelow(es, start, j);
    TrailerAt(br.data, br.blockLen, size, rs, j);
    RestartOffsetOf(br, j, rs[j]);
  }

  /** A big-endian field of `width` bytes gives back a value it can hold. */
  lemma BigEndianSmall(x: nat, width: nat)
    requires width == 2 || width == 3
    requires x < if width == 2 then 0x1_0000 else TWO24
    ensures FromBigEndian(BigEndian(x, width)) == x
  {
    BigEndianRoundTrip(x, width);
    assert Pow256(2) == 0x1_0000 && Pow256(3) == TWO24;
  }

  /** The restart offset whose three bytes hold `x`. */
  lemma RestartOffsetOf(br: BlockReader, i: nat, x: nat)
    requires br.blockLen + 3 * i + 3 <= |br.data| && x < TWO24
    requires br.data[br.blockLen + 3 * i..br.blockLen + 3 * i + 3] == BigEndian(x, 3)
    ensures RestartOffset(br, i) == x
  {
    BigEndianSmall(x, 3);
  }

  /** A restart offset lies before the end of the entries, so below
      `TWO24` in a block of that size. */
  lemma RestartsBelow(es: seq<Entry>, base: nat, j: nat)
    requires AllAddable(es) && j < |Restarts(es, base)|
    ensures Restarts(es, base)[j] < base + |Entries(es)|
  {
    RestartsShape(es, base);
    var k :| 0 <= k < |es| && Starts(es, base)[k] == Restarts(es, base)[j];
    OffsetsIncrease(es, k, |es|);
    OffsetWhole(es);
  }

  /** The offset after the last entry is the length of all of them. */
  lemma OffsetWhole(es: seq<Entry>)
    requires AllAddable(es)
    ensures Offset(es, |es|) == |Entries(es)|
  {
    assert EntryList(es)[..|es|] == EntryList(es);
  }

  lemma OffsetZero(es: seq<Entry>)
    requires AllAddable(es)
    ensures Offset(es, 0) == 0
  {
    assert EntryList(es)[..0] == [];
  }

  /** One step of the iterator over bytes whose key and payload decode. */
  lemma IterStepAt(br: BlockReader, off: nat, last: seq<Byte>, receiver: Record,
                   kb: seq<Byte>, payload: seq<Byte>, rest: seq<Byte>, key: seq<Byte>, extra: Byte, rec: Record)
    requires off < br.blockLen <= |br.data| && br.data[off..br.blockLen] == kb + (payload + rest)
    requires DecodeKey(kb + (payload + rest), last) == Some(DecodedKey(|kb|, key, extra))
    requires Decode(receiver, payload + rest, key, extra) == Some(Read(rec, |payload|))
    ensures IterStep(br, off, last, receiver) == Item(rec, key, off + |kb| + |payload|)
  {
    hide DecodeKey, Decode;
    assert (kb + (payload + rest))[|kb|..] == payload + rest;
  }

  /** The `k`-th entry of the entries at `start` followed by what comes
      after it up to their end. */
  lemma EntryAt(b: seq<Byte>, start: nat, es: seq<Entry>, k: nat)
    requires AllAddable(es) && k < |es|
    requires start + |Entries(es)| <= |b| && b[start..start + |Entries(es)|] == Entries(es)
    ensures start + Offset(es, k) < start + Offset(es, k + 1) <= start + |Entries(es)|
    ensures b[start + Offset(es, k)..start + |Entries(es)|]
            == EntryBytes(es, k) + b[start + Offset(es, k + 1)..start + |Entries(es)|]
  {
    hide Entries, EntryBytes, Offset;
    var end := start + |Entries(es)|;
    EntriesSplit(es, k);
    EntryBytesLength(es, k);
    var lo, mid := Offset(es, k), Offset(es, k + 1);
    SliceOfSlice(b, start, end, lo, mid);
    SliceJoin(b, start + lo, start + mid, end, EntryBytes(es, k), b[start + mid..end]);
  }

  /** An entry of record `r`, from an iterator in sync with it, decodes
      to `r`'s key and then to `r` as decoders return it. */
  lemma EntryDecodes(es: seq<Entry>, k: nat, r: Record, last: seq<Byte>, receiver: Record, rest: seq<Byte>)
    requires Encodable(r) && WellFormed(r) && |Key(r)| < TWO63 / 4 && Type(receiver) == Type(r)
    requires k < |es| && es[k] == EntryOf(r) && InSync(es, k, last)
    ensures var kb := KeyBytes(PrevKey(es, k), Key(r), ValType(r));
      && EntryBytes(es, k) == kb + Payload(r)
      && DecodeKey(kb + (Payload(r) + rest), last) == Some(DecodedKey(|kb|, Key(r), ValType(r)))
      && Decode(receiver, Payload(r) + rest, Key(r), ValType(r)) == Some(Read(Stored(r), |Payload(r)|))
  {
    hide KeyBytes, DecodeKey, Decode, Payload, CommonPrefix;
    var prev := PrevKey(es, k);
    var kb := KeyBytes(prev, Key(r), ValType(r));
    RecordRoundTrip(r, receiver, rest);
    if last == prev {
      KeyRoundTrip(prev, Key(r), ValType(r), Payload(r) + rest);
    } else {
      assert SharesNothing(es, k);
      KeyBytesShape(prev, Key(r), ValType(r));
      KeyRoundTripAt(last, Key(r), 0, ValType(r), kb, Payload(r) + rest);
    }
  }

  /** Decoding entry `k` of a finished block from an iterator in sync with
      it gives its record as decoders return it, with its key, and moves
      to the next entry. */
  lemma EntryRead(br: BlockReader, es: seq<Entry>, size: nat, k: nat, r: Record, last: seq<Byte>, receiver: Record)
    requires AllAddable(es) && Finished(br.data, br.headerOff, es, size)
    requires br.blockLen == br.headerOff + 4 + |Entries(es)|
    requires Encodable(r) && WellFormed(r) && |Key(r)| < TWO63 / 4 && Type(receiver) == Type(r)
    requires k < |es| && es[k] == EntryOf(r) && InSync(es, k, last)
    ensures IterStep(br, br.headerOff + 4 + Offset(es, k), last, receiver)
            == Item(Stored(r), Key(r), br.headerOff + 4 + Offset(es, k + 1))
  {
    hide Finished, Entries, EntryBytes, IterStep, KeyBytes, DecodeKey, Decode, Payload, Offset, Trailer, Restarts,
      Type, Key, ValType;
    var start := br.headerOff + 4;
    FinishedParts(br.data, br.headerOff, es, size);
    EntryAt(br.data, start, es, k);
    EntriesSplit(es, k);
    var off := start + Offset(es, k);
    var rest := br.data[start + Offset(es, k + 1)..br.blockLen];
    var kb := KeyBytes(PrevKey(es, k), Key(r), ValType(r));
    EntryDecodes(es, k, r, last, receiver, rest);
    assert br.data[off..br.blockLen] == kb + (Payload(r) + rest);
    IterStepAt(br, off, last, receiver, kb, Payload(r), rest, Key(r), ValType(r), Stored(r));
  }

  /** After entry `k` the iterator is in sync with entry `k + 1`. */
  lemma InSyncNext(es: seq<Entry>, k: nat)
    requires k < |es|
    ensures InSync(es, k + 1, es[k].key)
  {
    if k + 1 < |es| && (k + 1) % RestartInterval == 0 {
      assert PrevKey(es, k + 1) == [];
    }
  }

  /** The first entry of a finished block holds its first record's key. */
  lemma FirstKeyFinished(br: BlockReader, es: seq<Entry>, size: nat, r: Record)
    requires AllAddable(es) && Finished(br.data, br.headerOff, es, size)
    requires br.blockLen == br.headerOff + 4 + |Entries(es)|
    requires Encodable(r) && WellFormed(r) && |Key(r)| < TWO63 / 4
    requires es != [] && es[0] == EntryOf(r)
    ensures FirstKey(br) == Some(Key(r))
  {
    hide Finished, Entries, EntryBytes, IterStep, KeyBytes, DecodeKey, Decode, Payload, Offset, Trailer, Restarts;
    var start := br.headerOff + 4;
    FinishedParts(br.data, br.headerOff, es, size);
    EntryAt(br.data, start, es, 0);
    OffsetZero(es);
    var rest := br.data[start + Offset(es, 1)..br.blockLen];
    var kb := KeyBytes(PrevKey(es, 0), Key(r), ValType(r));
    EntryDecodes(es, 0, r, [], r, rest);
    assert br.data[start..br.blockLen] == kb + (Payload(r) + rest);
  }

  // ---------------------------------------------------------------------
  // Seeking

  /** Every restart point is a flagged start. */
  lemma {:induction false} RestartPointFlagged(flags: seq<bool>, starts: seq<nat>, j: nat) returns (k: nat)
    requires |flags| == |starts| && j < |RestartPoints(flags, starts)|
    ensures k < |flags| && flags[k] && starts[k] == RestartPoints(flags, starts)[j]
    decreases |flags|
  {
    var n := |flags| - 1;
    var before := RestartPoints(flags[..n], starts[..n]);
    if j < |before| {
      k := RestartPointFlagged(flags[..n], starts[..n], j);
    } else {
      k := n;
    }
  }

  /** The entry the `j`-th restart offset points at: one that shares
      nothing with the key before it. */
  lemma RestartEntry(es: seq<Entry>, base: nat, j: nat) returns (k: nat)
    requires AllAddable(es) && j < |Restarts(es, base)|
    ensures k < |es| && SharesNothing(es, k) && Restarts(es, base)[j] == base + Offset(es, k)
  {
    k := RestartPointFlagged(Flags(es), Starts(es, base), j);
  }

  /** `restart_key_less`: the key at restart `idx`, decoded against an
      empty key, compared with `want`. Despite its name it returns the
      three-way `slice_compare(want, key)`, not whether it is below zero,
      so as a C truth value it holds for any mismatch. `None` when the key
      does not decode, which sets the search's error flag. The restart
      offset is not checked against `block_len`. */
  function RestartKeyLess(br: BlockReader, want: seq<Byte>, idx: nat): Option<int>
    requires br.blockLen + 3 * idx + 3 <= |br.data| && RestartOffset(br, idx) <= br.blockLen
  {
    match DecodeKey(br.data[RestartOffset(br, idx)..br.blockLen], [])
    case None => None
    case Some(k) => Some(Compare(want, k.key))
  }

  /** The assumption made about `binsearch`'s result: it is 0, or the key
      at the restart before it decodes and is at most `want`. The result
      need not be the number of restart keys at most `want`: a bisection
      over the three-way `restart_key_less` gives 0 or one past an exact
      match, and both meet this. */
  predicate RestartAtMost(br: BlockReader, want: seq<Byte>, found: nat)
    requires found > 0 ==> br.blockLen + 3 * found <= |br.data|
  {
    found > 0 ==> && RestartOffset(br, found - 1) <= br.blockLen
                  && RestartKeyLess(br, want, found - 1).Some?
                  && RestartKeyLess(br, want, found - 1).value >= 0
  }

  /** At a restart of a finished block the key decodes to the key of the
      record there. */
  lemma RestartKeyFinished(br: BlockReader, es: seq<Entry>, size: nat, recs: seq<Record>, typ: Byte,
                           want: seq<Byte>, j: nat) returns (k: nat)
    requires AllAddable(es) && Finished(br.data, br.headerOff, es, size) && size < TWO24
    requires br.blockLen == br.headerOff + 4 + |Entries(es)| && Written(es, recs, typ)
    requires j < |Restarts(es, br.headerOff + 4)|
    ensures k < |es| && SharesNothing(es, k)
    ensures br.blockLen + 3 * j + 3 <= |br.data| && RestartOffset(br, j) == br.headerOff + 4 + Offset(es, k)
    ensures RestartOffset(br, j) <= br.blockLen
    ensures RestartKeyLess(br, want, j) == Some(Compare(want, Key(recs[k])))
  {
    hide Finished, Entries, EntryBytes, KeyBytes, DecodeKey, Decode, Payload, Offset, Trailer, Restarts, RestartOffset,
      RestartKeyLess, Written, Compare, Stored, Type, EntryOf, Key, ValType, WellFormed, Encodable;
    var start := br.headerOff + 4;
    k := RestartEntry(es, start, j);
    WrittenAt(es, recs, typ, k);
    RestartOffsetFinished(br, es, size, j);
    FinishedParts(br.data, br.headerOff, es, size);
    EntryAt(br.data, start, es, k);
    var r := recs[k];
    var rest := br.data[start + Offset(es, k + 1)..br.blockLen];
    var kb := KeyBytes(PrevKey(es, k), Key(r), ValType(r));
    EntryDecodes(es, k, r, [], r, rest);
    RestartKeyLessOf(br, want, j, kb + (Payload(r) + rest), |kb|, Key(r), ValType(r));
  }

  /** `restart_key_less` at a restart whose entry's key decodes. */
  lemma RestartKeyLessOf(br: BlockReader, want: seq<Byte>, idx: nat, input: seq<Byte>, n: nat, key: seq<Byte>, extra: Byte)
    requires br.blockLen + 3 * idx + 3 <= |br.data| && RestartOffset(br, idx) <= br.blockLen
    requires br.data[RestartOffset(br, idx)..br.blockLen] == input
    requires DecodeKey(input, []) == Some(DecodedKey(n, key, extra))
    ensures RestartKeyLess(br, want, idx) == Some(Compare(want, key))
  {
    hide DecodeKey, Compare, RestartOffset;
  }

  /** `recs` are the records whose entries are `es`, all of kind `typ`,
      with round trips and keys the key coder takes. */
  predicate Written(es: seq<Entry>, recs: seq<Record>, typ: Byte)
  {
    && |recs| == |es|
    && forall i :: 0 <= i < |recs| ==>
         && Encodable(recs[i]) && es[i] == EntryOf(recs[i]) && WellFormed(recs[i])
         && Type(recs[i]) == typ && |Key(recs[i])| < TWO63 / 4
  }

  /** The first record from `j` on whose key is at least `want`, or the
      end. */
  function FirstAtLeast(recs: seq<Record>, j: nat, want: seq<Byte>): (m: nat)
    requires j <= |recs|
    ensures j <= m <= |recs|
    ensures forall i :: j <= i < m ==> Less(Key(recs[i]), want)
    ensures m < |recs| ==> AtLeast(Key(recs[m]), want)
    decreases |recs| - j
  {
    if j == |recs| || AtLeast(Key(recs[j]), want) then j else FirstAtLeast(recs, j + 1, want)
  }

  /** Skipping keys below `want` does not change where the search ends. */
  lemma {:induction false} FirstAtLeastSkip(recs: seq<Record>, j: nat, k: nat, want: seq<Byte>)
    requires j <= k <= |recs| && forall i :: j <= i < k ==> Less(Key(recs[i]), want)
    ensures FirstAtLeast(recs, j, want) == FirstAtLeast(recs, k, want)
    decreases k - j
  {
    if j < k {
      FirstAtLeastSkip(recs, j + 1, k, want);
    }
  }

  /** Where `block_reader_seek` ends its loop: `Stop` at an entry whose
      record's key is at least `want`, or at the end, or `Broken` at an
      entry that does not decode; with the previous key at that point.
      Each decoded record is the receiver of the next step. */
  datatype Scanned = Stop(off: nat, last: seq<Byte>) | Broken(off: nat, last: seq<Byte>)

  function Scan(br: BlockReader, off: nat, last: seq<Byte>, receiver: Record, want: seq<Byte>): Scanned
    requires br.blockLen <= |br.data|
    decreases br.blockLen - off
  {
    match IterStep(br, off, last, receiver)
    case End => Stop(off, last)
    case Corrupt => Broken(off, last)
    case Item(rec, key, next) =>
      if AtLeast(Key(rec), want) then Stop(off, last) else Scan(br, next, key, rec, want)
  }

  /** One step of the scan over an entry that decodes. */
  lemma ScanItem(br: BlockReader, off: nat, last: seq<Byte>, receiver: Record, want: seq<Byte>,
                 rec: Record, key: seq<Byte>, next: nat)
    requires br.blockLen <= |br.data| && IterStep(br, off, last, receiver) == Item(rec, key, next)
    ensures Scan(br, off, last, receiver, want)
            == if AtLeast(Key(rec), want) then Stop(off, last) else Scan(br, next, key, rec, want)
  {
    hide IterStep;
  }

  lemma ScanEnd(br: BlockReader, off: nat, last: seq<Byte>, receiver: Record, want: seq<Byte>)
    requires br.blockLen <= |br.data| && IterStep(br, off, last, receiver).End?
    ensures Scan(br, off, last, receiver, want) == Stop(off, last)
  {
  }

  lemma ScanBroken(br: BlockReader, off: nat, last: seq<Byte>, receiver: Record, want: seq<Byte>)
    requires br.blockLen <= |br.data| && IterStep(br, off, last, receiver).Corrupt?
    ensures Scan(br, off, last, receiver, want) == Broken(off, last)
  {
    hide IterStep;
  }

  /** One step of the search for the first key at least `want`. */
  lemma FirstAtLeastStep(recs: seq<Record>, j: nat, want: seq<Byte>)
    requires j < |recs|
    ensures FirstAtLeast(recs, j, want) == if AtLeast(Key(recs[j]), want) then j else FirstAtLeast(recs, j + 1, want)
  {
  }

  /** Where the seek starts: the restart before the one `binsearch`
      found, or the first entry. */
  function SeekStart(br: BlockReader, found: nat): nat
    requires found > 0 ==> br.blockLen + 3 * found <= |br.data|
  {
    if found > 0 then RestartOffset(br, found - 1) else br.headerOff + 4
  }

  /** From an entry the iterator is in sync with, the scan of a finished
      block stops at the first record from there on whose key is at least
      `want`, with the key of the record before it. */
  lemma {:induction false} ScanFinished(br: BlockReader, es: seq<Entry>, size: nat, recs: seq<Record>,
                                        j: nat, last: seq<Byte>, receiver: Record, want: seq<Byte>)
    requires AllAddable(es) && Finished(br.data, br.headerOff, es, size)
    requires br.blockLen == br.headerOff + 4 + |Entries(es)| && Written(es, recs, Type(receiver))
    requires j <= |es| && InSync(es, j, last)
    ensures var m := FirstAtLeast(recs, j, want);
      Scan(br, br.headerOff + 4 + Offset(es, j), last, receiver, want)
      == Stop(br.headerOff + 4 + Offset(es, m), if m == j then last else Key(recs[m - 1]))
    decreases |es| - j
  {
    hide Finished, Entries, IterStep, EntryBytes, Offset, Restarts, Trailer, Scan, FirstAtLeast, Written,
      Less, AtLeast, Key, Stored, InSync, Type;
    var start := br.headerOff + 4;
    FinishedParts(br.data, br.headerOff, es, size);
    WrittenLength(es, recs, Type(receiver));
    if j == |es| {
      OffsetWhole(es);
      ScanEnd(br, start + Offset(es, j), last, receiver, want);
    } else {
      var r := recs[j];
      WrittenAt(es, recs, Type(receiver), j);
      EntryRead(br, es, size, j, r, last, receiver);
      StoredKey(r);
      ScanItem(br, start + Offset(es, j), last, receiver, want, Stored(r), Key(r), start + Offset(es, j + 1));
      FirstAtLeastStep(recs, j, want);
      if !AtLeast(Key(r), want) {
        InSyncNext(es, j);
        assert Type(Stored(r)) == Type(receiver);
        ScanFinished(br, es, size, recs, j + 1, Key(r), Stored(r), want);
      }
    }
  }

  lemma WrittenLength(es: seq<Entry>, recs: seq<Record>, typ: Byte)
    requires Written(es, recs, typ)
    ensures |recs| == |es|
  {
  }

  /** What `Written` says of the `j`-th record. */
  lemma WrittenAt(es: seq<Entry>, recs: seq<Record>, typ: Byte, j: nat)
    requires Written(es, recs, typ) && j < |es|
    ensures j < |recs| && Encodable(recs[j]) && es[j] == EntryOf(recs[j]) && WellFormed(recs[j])
    ensures Type(recs[j]) == typ && |Key(recs[j])| < TWO63 / 4
  {
  }

  /** `block_reader_seek` on a finished block of records in strictly
      increasing key order: when `binsearch` found a restart index whose
      previous restart key (if any) is at most `want`, the scan stops at
      the first record whose key is at least `want`, and the iterator is
      in sync with it, so that the next step yields it. */
  lemma SeekFinished(br: BlockReader, es: seq<Entry>, size: nat, recs: seq<Record>,
                     found: nat, last: seq<Byte>, receiver: Record, want: seq<Byte>)
    requires AllAddable(es) && Finished(br.data, br.headerOff, es, size) && size < TWO24
    requires br.blockLen == br.headerOff + 4 + |Entries(es)| && Written(es, recs, Type(receiver))
    requires KeysIncrease(recs)
    requires found <= |Restarts(es, br.headerOff + 4)|
    requires size == br.blockLen + 3 * |Restarts(es, br.headerOff + 4)| + 2 <= |br.data|
    requires RestartAtMost(br, want, found)
    ensures var m := FirstAtLeast(recs, 0, want);
      var s := Scan(br, SeekStart(br, found), last, receiver, want);
      && (forall i :: 0 <= i < m ==> Less(Key(recs[i]), want))
      && (m < |recs| ==> AtLeast(Key(recs[m]), want))
      && s.Stop? && s.off == br.headerOff + 4 + Offset(es, m) && InSync(es, m, s.last)
  {
    hide Finished, Entries, IterStep, EntryBytes, Offset, Restarts, Trailer, RestartOffset, RestartKeyLess, Scan,
      FirstAtLeast, Written, Stored, Type, Key, Compare, Less, AtLeast, WellFormed, Encodable, KeysIncrease, RestartAtMost;
    var k := SeekEntry(br, es, size, recs, found, last, receiver, want);
    WrittenLength(es, recs, Type(receiver));
    ScanFinished(br, es, size, recs, k, last, receiver, want);
    var m := FirstAtLeast(recs, k, want);
    var s := Scan(br, SeekStart(br, found), last, receiver, want);
    if m != k {
      InSyncNext(es, m - 1);
      WrittenAt(es, recs, Type(receiver), m - 1);
      assert s.last == es[m - 1].key;
    }
    assert InSync(es, m, s.last);
  }

  /** The entry the seek starts at: the first, or the one at the restart
      before the one found. The scan may start there. */
  lemma SeekEntry(br: BlockReader, es: seq<Entry>, size: nat, recs: seq<Record>,
                  found: nat, last: seq<Byte>, receiver: Record, want: seq<Byte>) returns (k: nat)
    requires AllAddable(es) && Finished(br.data, br.headerOff, es, size) && size < TWO24
    requires br.blockLen == br.headerOff + 4 + |Entries(es)| && Written(es, recs, Type(receiver))
    requires KeysIncrease(recs)
    requires found <= |Restarts(es, br.headerOff + 4)|
    requires size == br.blockLen + 3 * |Restarts(es, br.headerOff + 4)| + 2 <= |br.data|
    requires RestartAtMost(br, want, found)
    ensures k <= |es| == |recs| && InSync(es, k, last)
    ensures SeekStart(br, found) == br.headerOff + 4 + Offset(es, k)
    ensures FirstAtLeast(recs, 0, want) == FirstAtLeast(recs, k, want)
  {
    hide Finished, Entries, IterStep, EntryBytes, Offset, Restarts, Trailer, RestartOffset, RestartKeyLess, Scan,
      FirstAtLeast, Written, Stored, Type, Key, Less, AtLeast, WellFormed, Encodable, KeysIncrease;
    WrittenLength(es, recs, Type(receiver));
    if found == 0 {
      k := 0;
      OffsetZero(es);
      InSyncFirst(es, last);
    } else {
      k := RestartKeyFinished(br, es, size, recs, Type(receiver), want, found - 1);
      WrittenAt(es, recs, Type(receiver), k);
      BelowRestart(recs, k, want);
    }
  }

  /** The records' keys are strictly increasing, as a table writer adds
      them. */
  predicate KeysIncrease(recs: seq<Record>)
  {
    forall a, b :: 0 <= a < b < |recs| ==> Less(Key(recs[a]), Key(recs[b]))
  }

  /** In strictly increasing keys, everything before a key at most `want`
      is below `want`, so the search may start there. */
  lemma BelowRestart(recs: seq<Record>, k: nat, want: seq<Byte>)
    requires k < |recs| && KeysIncrease(recs)
    requires !Less(want, Key(recs[k]))
    ensures FirstAtLeast(recs, 0, want) == FirstAtLeast(recs, k, want)
  {
    hide Key, Less, FirstAtLeast;
    assert forall a, b :: 0 <= a < b < |recs| ==> Less(Key(recs[a]), Key(recs[b]));
    forall i | 0 <= i < k
      ensures Less(Key(recs[i]), want)
    {
      LessTotal(want, Key(recs[k]));
      if Less(Key(recs[k]), want) {
        LessTransitive(Key(recs[i]), Key(recs[k]), want);
      }
    }
    FirstAtLeastSkip(recs, 0, k, want);
  }

  /** Any previous key decodes the first entry. */
  lemma InSyncFirst(es: seq<Entry>, last: seq<Byte>)
    ensures InSync(es, 0, last)
  {
    if es != [] {
      assert PrevKey(es, 0) == [];
    }
  }

  /** `struct block_iter`: the reader, where the next entry starts, and the
      key of the entry before it. */
  class BlockIter {
    var br: BlockReader
    var nextOff: nat
    var lastKey: seq<Byte>

    /** `block_reader_start`: at the first entry, with no previous key. */
    constructor Start(br: BlockReader)
      ensures this.br == br && nextOff == br.headerOff + 4 && lastKey == []
    {
      this.br := br;
      nextOff := br.headerOff + 4;
      lastKey := [];
    }

    /** `block_iter_copy_from`. */
    method CopyFrom(src: BlockIter)
      modifies this
      ensures br == old(src.br) && nextOff == old(src.nextOff) && lastKey == old(src.lastKey)
    {
      br, nextOff, lastKey := src.br, src.nextOff, src.lastKey;
    }

    /** `block_iter_next`: 1 at the end, -1 for an entry that does not
      decode, otherwise 0 with the decoded record, and the iterator moves
      past the entry with its key as the previous key. */
    method Next(rec: Record) returns (err: int, out: Record)
      requires br.blockLen <= |br.data|
      modifies this
      ensures br == old(br)
      ensures match IterStep(br, old(nextOff), old(lastKey), rec)
        case End => err == 1 && out == rec && nextOff == old(nextOff) && lastKey == old(lastKey)
        case Corrupt => err == -1 && out == rec && nextOff == old(nextOff) && lastKey == old(lastKey)
        case Item(r, key, next) => err == 0 && out == r && nextOff == next && lastKey == key
    {
      hide DecodeKey, Decode, Type, Key;
      if nextOff >= br.blockLen {
        return 1, rec;
      }
      var input := br.data[nextOff..br.blockLen];
      var k := DecodeKey(input, lastKey);
      DecodeKeyConsumes(input, lastKey);
      if k.None? {
        return -1, rec;
      }
      var d := Decode(rec, input[k.value.n..], k.value.key, k.value.extra);
      if d.None? {
        return -1, rec;
      }
      lastKey := k.value.key;
      nextOff := nextOff + k.value.n + d.value.n;
      return 0, d.value.value;
    }

    /** `block_reader_seek(reader, it, want)` with `binsearch`'s outcome
      given: `searchFailed` when a restart key did not decode (-1, the
      iterator untouched), otherwise its result `found`, any restart
      index (the seek is proved to land right when `found` meets
      `RestartAtMost`). The iterator moves to `SeekStart`
      keeping its previous key, then steps while the next record's key
      is below `want`. */
    method Seek(reader: BlockReader, want: seq<Byte>, found: nat, searchFailed: bool) returns (result: int)
      requires reader.blockLen <= |reader.data| && reader.headerOff < |reader.data|
      requires IsBlockType(ReaderType(reader))
      requires found > 0 ==> reader.blockLen + 3 * found <= |reader.data|
      modifies this
      ensures searchFailed ==> result == -1 && br == old(br) && nextOff == old(nextOff) && lastKey == old(lastKey)
      ensures !searchFailed ==>
        var s := Scan(reader, SeekStart(reader, found), old(lastKey), NewRecord(ReaderType(reader), []).value, want);
        && br == reader && result == (if s.Stop? then 0 else -1) && nextOff == s.off && lastKey == s.last
    {
      hide Scan, IterStep;
      if searchFailed {
        return -1;
      }
      br := reader;
      if found > 0 {
        nextOff := RestartOffset(reader, found - 1);
      } else {
        nextOff := reader.headerOff + 4;
      }
      var rec := NewRecord(ReaderType(reader), []).value;
      ghost var target := Scan(reader, nextOff, lastKey, rec, want);
      var next := new BlockIter.Start(reader);
      while true
        invariant next != this && br == reader
        invariant Scan(reader, nextOff, lastKey, rec, want) == target
        decreases reader.blockLen - nextOff
      {
        ghost var step := IterStep(reader, nextOff, lastKey, rec);
        next.CopyFrom(this);
        var err, r := next.Next(rec);
        if err < 0 {
          ScanBroken(reader, nextOff, lastKey, rec, want);
          return -1;
        }
        if err > 0 {
          ScanEnd(reader, nextOff, lastKey, rec, want);
          return 0;
        }
        ScanItem(reader, nextOff, lastKey, rec, want, step.record, step.key, step.next);
        rec := r;
        if AtLeast(Key(rec), want) {
          return 0;
        }
        CopyFrom(next);
      }
    }

    /** `block_iter_seek`: seek within the iterator's own reader. */
    method IterSeek(want: seq<Byte>, found: nat, searchFailed: bool) returns (result: int)
      requires br.blockLen <= |br.data| && br.headerOff < |br.data| && IsBlockType(ReaderType(br))
      requires found > 0 ==> br.blockLen + 3 * found <= |br.data|
      modifies this
      ensures br == old(br)
      ensures searchFailed ==> result == -1 && nextOff == old(nextOff) && lastKey == old(lastKey)
      ensures !searchFailed ==>
        var s := Scan(br, SeekStart(br, found), old(lastKey), NewRecord(ReaderType(br), []).value, want);
        && result == (if s.Stop? then 0 else -1) && nextOff == s.off && lastKey == s.last
    {
      result := Seek(br, want, found, searchFailed);
    }
  }
}
