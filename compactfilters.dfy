/** The record filters of `writeCompact` in stack.go: which of the merged
    ref and log records of the tables being compacted are written to the
    compacted table. The merged iterators themselves are given as the
    sequences of records they yield. */
module CompactFilters {
  import opened Bytes
  import opened Sequences
  import opened Records
  import opened LogRecords

  /** `LogExpirationConfig{Time, MaxUpdateIndex, MinUpdateIndex}`; a zero
      field sets no bound. */
  datatype Expiration = Expiration(time: U64, maxUpdateIndex: U64, minUpdateIndex: U64)

  /** A ref deletion is dropped only when the compaction reaches the bottom
      of the stack (`first == 0`): above it, the deletion still has to hide
      the older tables' value. `isDeletion` is taken to be `IsTombstone`. */
  function KeepRef(first: int): RefRecord -> bool
  {
    r => !(first == 0 && RefIsTombstone(r))
  }

  /** Whether a log record is expired under `e`: older than `Time`, or with
      an update index outside `[MinUpdateIndex, MaxUpdateIndex]`. */
  predicate Expired(e: Expiration, l: LogRecord)
  {
    (e.time > 0 && l.time < e.time)
    || (e.maxUpdateIndex != 0 && l.updateIndex > e.maxUpdateIndex)
    || (e.minUpdateIndex != 0 && l.updateIndex < e.minUpdateIndex)
  }

  /** Without an expiration every log record is kept. */
  function KeepLog(e: Option<Expiration>): LogRecord -> bool
  {
    l => !(e.Some? && Expired(e.value, l))
  }

  /** The two loops of `writeCompact`: every merged ref record except the
      dropped deletions, then every merged log record except the expired
      ones, each in iterator order. */
  method WriteCompact(first: int, refs: seq<RefRecord>, logs: seq<LogRecord>, expiration: Option<Expiration>)
    returns (outRefs: seq<RefRecord>, outLogs: seq<LogRecord>)
    ensures outRefs == Filter(refs, KeepRef(first))
    ensures outLogs == Filter(logs, KeepLog(expiration))
  {
    outRefs := [];
    var i := 0;
    while i < |refs|
      invariant 0 <= i <= |refs|
      invariant outRefs == Filter(refs[..i], KeepRef(first))
    {
      var rec := refs[i];
      FilterSnoc(refs[..i], rec, KeepRef(first));
      assert refs[..i + 1] == refs[..i] + [rec];
      i := i + 1;
      if first == 0 && RefIsTombstone(rec) {
        continue;
      }
      outRefs := outRefs + [rec];
    }
    assert refs[..i] == refs;

    outLogs := [];
    var j := 0;
    while j < |logs|
      invariant 0 <= j <= |logs|
      invariant outLogs == Filter(logs[..j], KeepLog(expiration))
    {
      var rec := logs[j];
      FilterSnoc(logs[..j], rec, KeepLog(expiration));
      assert logs[..j + 1] == logs[..j] + [rec];
      j := j + 1;
      if expiration.Some? {
        var e := expiration.value;
        if e.time > 0 && rec.time < e.time {
          continue;
        }
        if e.maxUpdateIndex != 0 && rec.updateIndex > e.maxUpdateIndex {
          continue;
        }
        if e.minUpdateIndex != 0 && rec.updateIndex < e.minUpdateIndex {
          continue;
        }
      }
      outLogs := outLogs + [rec];
    }
    assert logs[..j] == logs;
  }

  /** A ref record is written exactly when it is merged and is not a
      deletion dropped at the bottom of the stack; above the bottom every
      ref record is written, in order. */
  lemma RefsKept(first: int, refs: seq<RefRecord>)
    ensures forall r :: r in Filter(refs, KeepRef(first)) <==> r in refs && !(first == 0 && RefIsTombstone(r))
    ensures first != 0 ==> Filter(refs, KeepRef(first)) == refs
    ensures first == 0 ==> forall r :: r in Filter(refs, KeepRef(first)) ==> !RefIsTombstone(r)
  {
    FilterKeeps(refs, KeepRef(first));
    if first != 0 {
      FilterAll(refs, KeepRef(first));
    }
  }

  /** A log record is written exactly when it is merged and not expired;
      with no expiration all of them are written, in order. */
  lemma LogsKept(e: Option<Expiration>, logs: seq<LogRecord>)
    ensures forall l :: l in Filter(logs, KeepLog(e)) <==> l in logs && !(e.Some? && Expired(e.value, l))
    ensures e.None? ==> Filter(logs, KeepLog(e)) == logs
  {
    FilterKeeps(logs, KeepLog(e));
    if e.None? {
      FilterAll(logs, KeepLog(e));
    }
  }

  /** An expiration whose fields are all zero expires nothing. */
  lemma ZeroExpirationKeepsAll(logs: seq<LogRecord>)
    ensures Filter(logs, KeepLog(Some(Expiration(0, 0, 0)))) == logs
  {
    FilterAll(logs, KeepLog(Some(Expiration(0, 0, 0))));
  }
}
