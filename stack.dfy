/** The `Stack` of stack.go: an ordered list of tables named by a list
    file, kept open as readers, with its transactions `add` and
    `compactRange`, the automatic compaction after each addition, and the
    compaction statistics. The directory is a `FileSystem`; the writer,
    reader and merged iterators are given by what they produce. */
module Stacks {
  import opened Bytes
  import opened Sequences
  import opened Manifest
  import opened Compaction
  import opened CompactFilters
  import opened FileSystems
  import opened Readers
  import opened Records
  import opened LogRecords

  /** What reading the list file finds in a directory. */
  function ListFileOf(files: map<Path, File>): ManifestFile
  {
    if ListFile !in files then Missing
    else match files[ListFile]
      case Text(t) => Present(t)
      case _ => Unreadable
  }

  /** `NextUpdateIndex`: one past the last table's maximum update index,
      in 64 bits, or 1 for an empty stack. */
  function NextIndex(rs: seq<Reader>): U64
  {
    if |rs| > 0 then Add64(rs[|rs| - 1].maxUpdateIndex, 1) else 1
  }

  /** The update indices of the tables grow along the stack. */
  predicate Ordered(rs: seq<Reader>)
  {
    forall i :: 0 <= i < |rs| ==> rs[i].maxUpdateIndex <= rs[|rs| - 1].maxUpdateIndex
  }

  /** The next update index is above every table's, unless the last one is
      already the largest 64-bit value, when it wraps to 0. */
  lemma NextIndexAbove(rs: seq<Reader>)
    requires Ordered(rs)
    ensures |rs| == 0 ==> NextIndex(rs) == 1
    ensures |rs| > 0 && rs[|rs| - 1].maxUpdateIndex < TWO64 - 1 ==>
              NextIndex(rs) > 0 && forall i :: 0 <= i < |rs| ==> rs[i].maxUpdateIndex < NextIndex(rs)
    ensures |rs| > 0 && rs[|rs| - 1].maxUpdateIndex == TWO64 - 1 ==> NextIndex(rs) == 0
  {
  }

  /** `tableSizesForCompaction`: each table's size less the 91 bytes of
      header and footer it carries, in unsigned 64-bit arithmetic. */
  function CompactionSizes(rs: seq<Reader>): (sizes: seq<U64>)
    ensures |sizes| == |rs|
  {
    seq(|rs|, i requires 0 <= i < |rs| => Sub64(rs[i].size, 91))
  }

  /** A table of 91 bytes or more contributes its size less 91; so the
      sizes are all positive, as `log2` needs, exactly when no table is of
      exactly 91 bytes. */
  lemma CompactionSizesPositive(rs: seq<Reader>)
    ensures forall i :: 0 <= i < |rs| && rs[i].size >= 91 ==> CompactionSizes(rs)[i] == rs[i].size - 91
    ensures Positive(CompactionSizes(rs)) <==> forall i :: 0 <= i < |rs| ==> rs[i].size != 91
  {
    var sizes := CompactionSizes(rs);
    if forall i :: 0 <= i < |rs| ==> rs[i].size != 91 {
      forall i | 0 <= i < |rs|
        ensures sizes[i] > 0
      {
        assert sizes[i] == Sub64(rs[i].size, 91);
      }
    }
  }

  /** The list file after a compaction of `[first, last]`: the names below
      `first`, the new table, then the names above `last`. */
  function Spliced(names: seq<string>, first: nat, last: int, name: string): seq<string>
    requires first <= |names| && -1 <= last < |names|
  {
    names[..first] + [name] + names[last + 1..]
  }

  /** The splice keeps the names outside the range in order and puts the
      new name at `first`; if every name is a manifest name, the list file
      written reads back as the splice. */
  lemma SplicedNames(names: seq<string>, first: nat, last: int, name: string)
    requires first <= last + 1 <= |names|
    ensures var s := Spliced(names, first, last, name);
      |s| == |names| - (last + 1 - first) + 1
      && s[first] == name
      && (forall i :: 0 <= i < first ==> s[i] == names[i])
      && (forall i :: last < i < |names| ==> s[i - (last + 1 - first) + 1] == names[i])
    ensures (forall i :: 0 <= i < |names| ==> IsName(names[i])) && IsName(name) ==>
              Names(Join(Spliced(names, first, last, name))) == Spliced(names, first, last, name)
  {
    var s := Spliced(names, first, last, name);
    if (forall i :: 0 <= i < |names| ==> IsName(names[i])) && IsName(name) {
      forall k | 0 <= k < |s|
        ensures IsName(s[k])
      {
        if k > first {
          assert s[k] == names[k - 1 + (last + 1 - first)];
        }
      }
      NamesRoundTrip(s);
    }
  }

  /** Paths outside `changed` are as they were. */
  ghost predicate SameExcept(a: map<Path, File>, b: map<Path, File>, changed: set<Path>)
  {
    forall p :: p !in changed ==> (p in a <==> p in b) && (p in a ==> a[p] == b[p])
  }

  /** The name `add` gives the table it writes: `formatName(next, next)`
      and `.ref`, where `next` is the stack's next update index. */
  function AddedName(rs: seq<Reader>): string
  {
    FormatName(NextIndex(rs), NextIndex(rs)) + ".ref"
  }

  /** `add` holds the list lock: it was free and creating it worked. */
  predicate AddLocked(files: map<Path, File>, faults: set<Step>)
  {
    ListLock !in files && AddLockOpen !in faults
  }

  /** The list file names exactly the open tables. */
  predicate Current(files: map<Path, File>, rs: seq<Reader>)
  {
    NamesIn(ListFileOf(files)) == Some(NamesOf(rs))
  }

  /** How `add` ends once its temporary table exists: the write callback,
      the writer's `Close`, the file's `Close`, a writer whose minimum
      update index is below the next one (`ErrLockFailure`), or the rename
      into place; none when the table is in place. */
  function WriteError(written: Option<TableData>, faults: set<Step>, next: U64): Option<Error>
  {
    if written.None? then Some(Failed(AddWrite))
    else if AddWriterClose in faults then Some(Failed(AddWriterClose))
    else if AddTempClose in faults then Some(Failed(AddTempClose))
    else if written.value.minUpdateIndex < next then Some(LockFailure)
    else if AddRename in faults then Some(Failed(AddRename))
    else None
  }

  /** How `add` ends once its table is in place: writing the new list into
      the lock, closing it, or renaming it over the list file. */
  function CommitError(faults: set<Step>): Option<Error>
  {
    if AddListWrite in faults then Some(Failed(AddListWrite))
    else if AddListClose in faults then Some(Failed(AddListClose))
    else if AddListRename in faults then Some(Failed(AddListRename))
    else None
  }

  /** No fault stops `add` once the stack is found current. */
  predicate NoAddFault(rs: seq<Reader>, written: Option<TableData>, faults: set<Step>)
  {
    AddTempCreate !in faults && WriteError(written, faults, NextIndex(rs)).None? && CommitError(faults).None?
  }

  /** Where `add` leaves the directory once it holds the lock of a current
      stack: untouched when no temporary table could be made; the
      temporary table left behind when it ends before the rename; the
      added table removed again when it ends after the rename; otherwise
      the table in place and the list file naming it on top. */
  ghost predicate AddEnds(before: map<Path, File>, after: map<Path, File>, rs: seq<Reader>, nextTemp: nat,
                          written: Option<TableData>, faults: set<Step>, err: Option<Error>)
  {
    var next := NextIndex(rs);
    var dest := Table(AddedName(rs));
    var tmp := Temp(nextTemp);
    (AddTempCreate in faults ==> err == Some(Failed(AddTempCreate)) && after == before)
    && (AddTempCreate !in faults && WriteError(written, faults, next).Some? ==>
          err == WriteError(written, faults, next) && tmp in after && SameExcept(before, after, {tmp}))
    && (AddTempCreate !in faults && WriteError(written, faults, next).None? && CommitError(faults).Some? ==>
          err == CommitError(faults) && dest !in after && SameExcept(before, after, {dest}))
    && (NoAddFault(rs, written, faults) ==>
          after == before[dest := Data(written.value)][ListFile := Text(Join(NamesOf(rs) + [AddedName(rs)]))])
  }

  /** Where `AddUnderLock` leaves the directory: as `AddEnds` says, but with
      the lock still there on failure and gone (renamed) on success. */
  ghost predicate AddLockedEnds(before: map<Path, File>, after: map<Path, File>, rs: seq<Reader>, nextTemp: nat,
                                written: Option<TableData>, faults: set<Step>, err: Option<Error>)
  {
    var next := NextIndex(rs);
    var dest := Table(AddedName(rs));
    var tmp := Temp(nextTemp);
    (AddTempCreate in faults ==> err == Some(Failed(AddTempCreate)) && after == before)
    && (AddTempCreate !in faults && WriteError(written, faults, next).Some? ==>
          err == WriteError(written, faults, next) && tmp in after && tmp !in before
          && SameExcept(before, after, {tmp, ListLock}))
    && (AddTempCreate !in faults && WriteError(written, faults, next).None? && CommitError(faults).Some? ==>
          err == CommitError(faults) && dest !in after && SameExcept(before, after, {dest, ListLock}))
    && (NoAddFault(rs, written, faults) ==>
          err.None?
          && after == (before - {ListLock})[dest := Data(written.value)][ListFile := Text(Join(NamesOf(rs) + [AddedName(rs)]))])
  }

  /** Removing the lock after a failed `AddUnderLock` gives back the
      directory as it was before the lock was taken, but for what `add`
      leaves behind. */
  lemma AddFailedEnds(before: map<Path, File>, locked: map<Path, File>, after: map<Path, File>, rs: seq<Reader>,
                      nextTemp: nat, written: Option<TableData>, faults: set<Step>, err: Option<Error>)
    requires ListLock !in before && locked == before[ListLock := Text([])]
    requires AddLockedEnds(locked, after, rs, nextTemp, written, faults, err) && err.Some?
    ensures AddEnds(before, after - {ListLock}, rs, nextTemp, written, faults, err)
  {
    assert locked - {ListLock} == before;
  }

  // ---------------------------------------------------------------------
  // Compaction helpers

  /** The paths of the locks on the named tables. */
  function LockPaths(names: seq<string>): set<Path>
  {
    set i | 0 <= i < |names| :: TableLock(names[i])
  }

  /** The name of the table that replaces `[first, last]`. */
  function CompactedName(rs: seq<Reader>, first: nat, last: nat): string
    requires first < |rs| && last < |rs|
  {
    FormatName(rs[first].minUpdateIndex, rs[last].maxUpdateIndex) + ".ref"
  }

  /** What the merged iterators over the tables being compacted yield, and
      the size of the table the writer makes of it. */
  datatype Merged = Merged(refs: seq<RefRecord>, logs: seq<LogRecord>, size: U64)

  /** The table `compactLocked` writes: limited to the update indices of
      the range, holding the merged records that `writeCompact` keeps. */
  function CompactedTable(rs: seq<Reader>, first: nat, last: nat, expiration: Option<Expiration>, input: Merged): TableData
    requires first < |rs| && last < |rs|
  {
    TableData(rs[first].minUpdateIndex, rs[last].maxUpdateIndex, input.size,
              Filter(input.refs, KeepRef(first)), Filter(input.logs, KeepLog(expiration)))
  }

  /** How `compactLocked` fails: making the temporary file, writing the
      records, or closing the writer or the file. */
  function CompactLockedError(faults: set<Step>): Option<Error>
  {
    if CompactTempCreate in faults then Some(Failed(CompactTempCreate))
    else if CompactWrite in faults then Some(Failed(CompactWrite))
    else if CompactWriterClose in faults then Some(Failed(CompactWriterClose))
    else if CompactTempClose in faults then Some(Failed(CompactTempClose))
    else None
  }

  lemma LockPathsSnoc(names: seq<string>, n: string)
    ensures LockPaths(names + [n]) == LockPaths(names) + {TableLock(n)}
  {
    var ns := names + [n];
    assert forall i :: 0 <= i < |names| ==> ns[i] == names[i];
    assert ns[|names|] == n;
  }

  /** Changing one more path keeps the rest of the directory as it was. */
  lemma SameExceptUpdate(a: map<Path, File>, b: map<Path, File>, changed: set<Path>, q: Path, f: File)
    requires SameExcept(a, b, changed)
    ensures SameExcept(a, b[q := f], changed + {q})
  {
  }

  /** Removing one more path keeps the rest of the directory as it was. */
  lemma SameExceptRemove(a: map<Path, File>, b: map<Path, File>, changed: set<Path>, q: Path)
    requires SameExcept(a, b, changed)
    ensures SameExcept(a, b - {q}, changed + {q})
  {
  }

  /** The directory with an empty lock file made for each of the named
      tables, in order. */
  function Locked(files: map<Path, File>, names: seq<string>): map<Path, File>
    decreases |names|
  {
    if names == [] then files
    else Locked(files, names[..|names| - 1])[TableLock(names[|names| - 1]) := Text([])]
  }

  /** Locking adds the lock paths and changes nothing else. */
  lemma {:induction false} LockedKeys(files: map<Path, File>, names: seq<string>)
    ensures forall p :: p in Locked(files, names) <==> p in files || p in LockPaths(names)
    ensures forall p :: p in files && p !in LockPaths(names) ==> Locked(files, names)[p] == files[p]
    decreases |names|
  {
    if names != [] {
      var init := names[..|names| - 1];
      LockedKeys(files, init);
      LockPathsSnoc(init, names[|names| - 1]);
      assert init + [names[|names| - 1]] == names;
    }
  }

  /** Taking the lock on one more table, one that is not yet locked. */
  lemma LockTaken(before: map<Path, File>, taken: seq<string>, name: string, faults: set<Step>)
    requires LocksFree(before, taken, faults) && CompactTableLock(name) !in faults
    requires TableLock(name) !in Locked(before, taken)
    ensures Locked(before, taken + [name]) == Locked(before, taken)[TableLock(name) := Text([])]
    ensures LocksFree(before, taken + [name], faults)
  {
    assert (taken + [name])[..|taken|] == taken;
    LockedKeys(before, taken);
    forall k | 0 <= k < |taken|
      ensures taken[k] != name
    {
      assert TableLock(taken[k]) in LockPaths(taken);
    }
  }

  /** Free locks once taken: the directory differs only in them, and
      removing them gives it back. */
  lemma LocksTaken(before: map<Path, File>, taken: seq<string>, faults: set<Step>)
    requires LocksFree(before, taken, faults)
    ensures SameExcept(before, Locked(before, taken), LockPaths(taken))
    ensures Locked(before, taken) - LockPaths(taken) == before
  {
    LockedKeys(before, taken);
  }

  /** A directory that agrees with another outside some paths none of
      which it had, less those paths, is the other. */
  lemma SameExceptRestore(a: map<Path, File>, b: map<Path, File>, changed: set<Path>)
    requires SameExcept(a, b, changed)
    requires forall p :: p in changed ==> p !in a
    ensures b - changed == a
  {
  }

  /** The paths of the named tables. */
  function TablePaths(names: seq<string>): set<Path>
  {
    set i | 0 <= i < |names| :: Table(names[i])
  }

  /** The tables of `[first, last]` are free to be locked: none has a lock,
      none of the locks fails to be made, and no name appears twice. */
  predicate LocksFree(files: map<Path, File>, names: seq<string>, faults: set<Step>)
  {
    (forall i :: 0 <= i < |names| ==> TableLock(names[i]) !in files && CompactTableLock(names[i]) !in faults)
    && (forall i, j :: 0 <= i < j < |names| ==> names[i] != names[j])
  }

  /** Taking no locks changes nothing. */
  lemma LockedNone(files: map<Path, File>, faults: set<Step>)
    ensures Locked(files, []) == files && LocksFree(files, [], faults)
  {
  }

  /** `compactRange` gets past its checks and holds every lock it needs:
      the list is not locked, it is current, and the tables are free. */
  predicate Ready(files: map<Path, File>, rs: seq<Reader>, first: nat, last: int, faults: set<Step>)
    requires first <= last + 1 <= |rs|
  {
    ListLock !in files && Current(files, rs) && LocksFree(files, NamesOf(rs)[first..last + 1], faults)
  }

  /** How a compaction that holds its locks fails, in the order of
      stack.go: the list lock could not be made (so removing it fails) or
      removed, the compacted table could not be written, the list lock
      could not be made again, the table could not be renamed into place,
      the new list could not be written or renamed into place. A failure
      of the lock's `Close` is ignored. */
  function CompactError(faults: set<Step>): Option<Error>
  {
    if CompactLockOpen in faults || CompactLockRemove in faults then Some(Failed(CompactLockRemove))
    else if CompactLockedError(faults).Some? then CompactLockedError(faults)
    else if CompactLockReopen in faults then Some(Failed(CompactLockReopen))
    else if CompactRename in faults then Some(Failed(CompactRename))
    else if CompactListWrite in faults then Some(Failed(CompactListWrite))
    else if CompactListRename in faults then Some(Failed(CompactListRename))
    else None
  }

  /** The directory a compaction that holds its locks leaves, once the
      locks are gone: unchanged when it fails before the table is
      written; the temporary table left behind when the lock cannot be
      made again or the table cannot be renamed; the new table removed
      when the list cannot be written or renamed; otherwise the new table
      in place (removed again if closing the list lock failed), the list
      spliced, and the compacted tables other than the new one removed. */
  function CompactOutcome(files: map<Path, File>, rs: seq<Reader>, nextTemp: nat, first: nat, last: nat,
                          expiration: Option<Expiration>, input: Merged, faults: set<Step>): map<Path, File>
    requires first <= last < |rs|
  {
    var name := CompactedName(rs, first, last);
    var dest := Table(name);
    var table := Data(CompactedTable(rs, first, last, expiration, input));
    if CompactError(faults) == Some(Failed(CompactLockRemove)) || CompactLockedError(faults).Some? then files
    else if CompactLockReopen in faults || CompactRename in faults then files[Temp(nextTemp) := table]
    else if CompactListWrite in faults || CompactListRename in faults then files - {dest}
    else
      var placed := if CompactListClose in faults then files - {dest} else files[dest := table];
      placed[ListFile := Text(Join(Spliced(NamesOf(rs), first, last, name)))]
        - (TablePaths(NamesOf(rs)[first..last + 1]) - {dest})
  }

  /** Setting the table locks aside does not change what a compaction does
      to the rest of the directory. */
  lemma OutcomeWithoutLocks(files: map<Path, File>, locks: set<Path>, rs: seq<Reader>, nextTemp: nat, first: nat,
                            last: nat, expiration: Option<Expiration>, input: Merged, faults: set<Step>)
    requires first <= last < |rs|
    requires forall p :: p in locks ==> p.TableLock?
    ensures CompactOutcome(files, rs, nextTemp, first, last, expiration, input, faults) - locks
         == CompactOutcome(files - locks, rs, nextTemp, first, last, expiration, input, faults)
  {
  }

  lemma TablePathsSnoc(names: seq<string>, n: string)
    ensures TablePaths(names + [n]) == TablePaths(names) + {Table(n)}
  {
    var ns := names + [n];
    assert forall i :: 0 <= i < |names| ==> ns[i] == names[i];
    assert ns[|names|] == n;
  }

  /** The tables of a current stack have names a list file can hold. */
  lemma NamesOfAreNames(files: map<Path, File>, rs: seq<Reader>)
    requires Current(files, rs)
    ensures forall i :: 0 <= i < |rs| ==> IsName(rs[i].name)
  {
    if ListFileOf(files).Present? {
      NamesAreNames(ListFileOf(files).text);
    }
  }

  /** The lock loop finds the lock of the next table made only when the
      tables were not free to be locked. */
  lemma ContendedNotFree(before: map<Path, File>, locked: map<Path, File>, names: seq<string>, k: nat,
                         faults: set<Step>)
    requires k < |names|
    requires SameExcept(before, locked, LockPaths(names[..k]))
    requires TableLock(names[k]) in locked
    ensures !LocksFree(before, names, faults)
  {
    if TableLock(names[k]) in LockPaths(names[..k]) {
      var j :| 0 <= j < k && TableLock(names[..k][j]) == TableLock(names[k]);
      assert names[j] == names[k];
    } else {
      assert TableLock(names[k]) in before;
    }
  }

  /** How a compaction of `[first, last]` that is not trivial ends: it
      gives up without an error when the list is locked by someone else,
      and with the read error, if any, when the stack is not current;
      unless the stack is current and every lock is free, nothing changes;
      otherwise the directory is as `CompactOutcome` says, and the
      compaction succeeds exactly when no step fails, with the stack then
      reloaded from the spliced list. */
  ghost predicate CompactEnds(before: map<Path, File>, after: map<Path, File>, rs: seq<Reader>, rsAfter: seq<Reader>,
                              nextTemp: nat, first: nat, last: nat, expiration: Option<Expiration>, input: Merged,
                              faults: set<Step>, ok: bool, err: Option<Error>)
    requires first <= last < |rs|
  {
    (ListLock in before ==> !ok && err.None? && after == before && rsAfter == rs)
    && (ListLock !in before && !Current(before, rs) ==>
          !ok && err == (if NamesIn(ListFileOf(before)).None? then Some(ReadFailed) else None))
    && (!Ready(before, rs, first, last, faults) ==> !ok && after == before && rsAfter == rs)
    && (Ready(before, rs, first, last, faults) ==>
          after == CompactOutcome(before, rs, nextTemp, first, last, expiration, input, faults)
          && (ok <==> CompactError(faults).None?)
          && (!ok ==> err == CompactError(faults) && rsAfter == rs)
          && (ok && err.None? ==> NamesOf(rsAfter) == Spliced(NamesOf(rs), first, last, CompactedName(rs, first, last))))
    && (ok && err.Some? ==> rsAfter == rs)
  }

  /** Removing the table locks after a compaction leaves what the
      compaction would have done without them. */
  lemma LocksReleased(before: map<Path, File>, locked: map<Path, File>, locks: set<Path>, rs: seq<Reader>,
                      nextTemp: nat, first: nat, last: nat, expiration: Option<Expiration>, input: Merged,
                      faults: set<Step>)
    requires first <= last < |rs|
    requires forall p :: p in locks ==> p.TableLock?
    requires locked - locks == before
    ensures CompactOutcome(locked - {ListLock}, rs, nextTemp, first, last, expiration, input, faults) - locks
         == CompactOutcome(before - {ListLock}, rs, nextTemp, first, last, expiration, input, faults)
  {
    assert (locked - {ListLock}) - locks == before - {ListLock};
    OutcomeWithoutLocks(locked - {ListLock}, locks, rs, nextTemp, first, last, expiration, input, faults);
  }

  /** How `compactRange` ends from the locking of the tables on, holding
      the list lock unless making it failed: it gives up, without an error
      unless a lock could not be made, when the tables are not free to be
      locked; otherwise it ends as `CompactOutcome` and `CompactError` say.
      The list lock is gone either way. */
  ghost predicate LockedEnds(before: map<Path, File>, after: map<Path, File>, rs: seq<Reader>, rsAfter: seq<Reader>,
                             nextTemp: nat, first: nat, last: nat, expiration: Option<Expiration>, input: Merged,
                             faults: set<Step>, ok: bool, err: Option<Error>)
    requires first <= last < |rs|
  {
    var free := LocksFree(before, NamesOf(rs)[first..last + 1], faults);
    (!free ==> !ok && after == before - {ListLock} && rsAfter == rs)
    && (!free && (forall i :: first <= i <= last ==> CompactTableLock(rs[i].name) !in faults) ==> err.None?)
    && (free ==>
          after == CompactOutcome(before - {ListLock}, rs, nextTemp, first, last, expiration, input, faults)
          && ok == CompactError(faults).None?
          && (!ok ==> err == CompactError(faults) && rsAfter == rs)
          && (ok && err.None? ==> NamesOf(rsAfter) == Spliced(NamesOf(rs), first, last, CompactedName(rs, first, last))))
    && (ok && err.Some? ==> rsAfter == rs)
  }

  /** Giving up in the lock loop, on a lock that exists or cannot be
      made, removes the locks taken and the list lock and nothing else,
      and reports no error unless making a lock failed. */
  lemma GaveUpEnds(before: map<Path, File>, after: map<Path, File>, rs: seq<Reader>, taken: seq<string>,
                   contended: bool, err: Option<Error>, nextTemp: nat, first: nat, last: nat,
                   expiration: Option<Expiration>, input: Merged, faults: set<Step>)
    requires first <= last < |rs| && |taken| <= last - first
    requires taken == NamesOf(rs)[first..first + |taken|] && LocksFree(before, taken, faults)
    requires contended || err.Some?
    requires contended ==> err.None? && TableLock(rs[first + |taken|].name) in Locked(before, taken)
    requires err.Some? ==> CompactTableLock(rs[first + |taken|].name) in faults
    requires after == (Locked(before, taken) - LockPaths(taken)) - {ListLock}
    ensures LockedEnds(before, after, rs, rs, nextTemp, first, last, expiration, input, faults, false, err)
  {
    var names := NamesOf(rs)[first..last + 1];
    LocksTaken(before, taken, faults);
    assert taken == names[..|taken|];
    if contended {
      ContendedNotFree(before, Locked(before, taken), names, |taken|, faults);
    } else {
      assert CompactTableLock(names[|taken|]) in faults;
    }
  }

  /** With every lock of the range taken, how the compaction ends is how
      `compactRange` ends, measured from the directory before the locks. */
  lemma AllLockedEnds(before: map<Path, File>, after: map<Path, File>, rs: seq<Reader>, rsAfter: seq<Reader>,
                      nextTemp: nat, first: nat, last: nat, expiration: Option<Expiration>, input: Merged,
                      faults: set<Step>, ok: bool, err: Option<Error>)
    requires first <= last < |rs|
    requires LocksFree(before, NamesOf(rs)[first..last + 1], faults)
    requires after == CompactOutcome((Locked(before, NamesOf(rs)[first..last + 1]) - LockPaths(NamesOf(rs)[first..last + 1]))
                                     - {ListLock}, rs, nextTemp, first, last, expiration, input, faults)
    requires ok == CompactError(faults).None?
    requires !ok ==> err == CompactError(faults) && rsAfter == rs
    requires ok && err.None? ==> NamesOf(rsAfter) == Spliced(NamesOf(rs), first, last, CompactedName(rs, first, last))
    requires ok && err.Some? ==> rsAfter == rs
    ensures LockedEnds(before, after, rs, rsAfter, nextTemp, first, last, expiration, input, faults, ok, err)
  {
    LocksTaken(before, NamesOf(rs)[first..last + 1], faults);
  }

  /** Once the list lock is taken (or making it failed) in a current
      stack, how the rest of `compactRange` ends is how it ends. */
  lemma ListLockedEnds(before: map<Path, File>, locked: map<Path, File>, after: map<Path, File>, rs: seq<Reader>,
                       rsAfter: seq<Reader>, nextTemp: nat, first: nat, last: nat, expiration: Option<Expiration>,
                       input: Merged, faults: set<Step>, ok: bool, err: Option<Error>)
    requires first <= last < |rs|
    requires ListLock !in before && Current(before, rs)
    requires locked - {ListLock} == before && SameExcept(before, locked, {ListLock})
    requires LockedEnds(locked, after, rs, rsAfter, nextTemp, first, last, expiration, input, faults, ok, err)
    ensures CompactEnds(before, after, rs, rsAfter, nextTemp, first, last, expiration, input, faults, ok, err)
  {
    var names := NamesOf(rs)[first..last + 1];
    assert LocksFree(locked, names, faults) <==> LocksFree(before, names, faults);
    assert Ready(before, rs, first, last, faults) <==> LocksFree(before, names, faults);
  }

  /** A compaction of the whole stack leaves a list of one table. */
  lemma SplicedWhole(names: seq<string>, name: string)
    requires names != []
    ensures Spliced(names, 0, |names| - 1, name) == [name]
  {
  }

  /** How `AutoCompact` ends on positive sizes: without a suggestion
      nothing happens; otherwise the suggested segment, of at least two
      tables, is compacted as `CompactEnds` says, counting one attempt and
      a failure unless it succeeded. */
  ghost predicate AutoCompactEnds(before: map<Path, File>, after: map<Path, File>, rs: seq<Reader>, rsAfter: seq<Reader>,
                                  nextTemp: nat, suggestion: Option<Segment>, input: Merged, faults: set<Step>,
                                  attempted: int, failed: int, ok: bool, err: Option<Error>)
  {
    (suggestion.None? ==> err.None? && after == before && rsAfter == rs && attempted == 0 && failed == 0)
    && (suggestion.Some? ==>
          var seg := suggestion.value;
          seg.start < seg.end - 1 < |rs|
          && attempted == 1 && failed == (if ok then 0 else 1)
          && CompactEnds(before, after, rs, rsAfter, nextTemp, seg.start, seg.end - 1, None, input, faults, ok, err))
  }

  /** The spliced list a compaction of a current stack writes reads back
      as the splice. */
  lemma SplicedListReads(before: map<Path, File>, after: map<Path, File>, rs: seq<Reader>, first: nat, last: nat)
    requires first <= last < |rs| && Current(before, rs)
    requires ListFile in after && after[ListFile] == Text(Join(Spliced(NamesOf(rs), first, last, CompactedName(rs, first, last))))
    ensures NamesIn(ListFileOf(after)) == Some(Spliced(NamesOf(rs), first, last, CompactedName(rs, first, last)))
  {
    NamesOfAreNames(before, rs);
    TableNameIsName(rs[first].minUpdateIndex, rs[last].maxUpdateIndex);
    SplicedNames(NamesOf(rs), first, last, CompactedName(rs, first, last));
  }

  /** As written, a failed `Close` of the list lock is not returned: the
      new table is removed, yet the list renamed into place names it. */
  lemma ListCloseFailureLosesTable(files: map<Path, File>, rs: seq<Reader>, nextTemp: nat, first: nat, last: nat,
                                   expiration: Option<Expiration>, input: Merged, faults: set<Step>)
    requires first <= last < |rs|
    requires CompactListClose in faults && CompactError(faults).None?
    ensures var out := CompactOutcome(files, rs, nextTemp, first, last, expiration, input, faults);
      var names := Spliced(NamesOf(rs), first, last, CompactedName(rs, first, last));
      && Table(CompactedName(rs, first, last)) !in out
      && ListFile in out && out[ListFile] == Text(Join(names))
      && names[first] == CompactedName(rs, first, last)
  {
    SplicedNames(NamesOf(rs), first, last, CompactedName(rs, first, last));
  }

  /** A directory that agrees with another outside no paths is the same. */
  lemma SameExceptNothing(a: map<Path, File>, b: map<Path, File>)
    requires SameExcept(a, b, {})
    ensures a == b
  {
  }

  class Stack {
    const fs: FileSystem
    /** The open tables, bottom first. */
    var stack: seq<Reader>
    /** `Stats.Attempts` and `Stats.Failures`. */
    var attempts: nat
    var failures: nat
    /** The handle the next reader gets, and the handles of the readers
        closed so far. */
    var nextHandle: nat
    var closed: set<nat>

    /** The directory is consistent and the stack's readers are distinct
        and open. */
    predicate Valid()
      reads this, fs
    {
      fs.Valid() && AllOpen(stack, closed, nextHandle) && forall h :: h in closed ==> h < nextHandle
    }

    /** A stack with no tables open yet over `fs`. */
    constructor (fs: FileSystem)
      requires fs.Valid()
      ensures Valid() && this.fs == fs && stack == [] && attempts == 0 && failures == 0
    {
      this.fs := fs;
      stack := [];
      attempts := 0;
      failures := 0;
      nextHandle := 0;
      closed := {};
    }

    function NextUpdateIndex(): U64
      reads this
    {
      NextIndex(stack)
    }

    /** `UpToDate`: whether the list file names exactly the open tables, in
        order; an unreadable list file is an error. */
    method UpToDate() returns (ok: bool, err: Option<Error>)
      ensures err == if NamesIn(ListFileOf(fs.files)).None? then Some(ReadFailed) else None
      ensures ok <==> NamesIn(ListFileOf(fs.files)) == Some(NamesOf(stack))
    {
      var names := ReadNames(ListFileOf(fs.files));
      if names.None? {
        return false, Some(ReadFailed);
      }
      var ns := names.value;
      if |ns| != |stack| {
        return false, None;
      }
      var i := 0;
      while i < |stack|
        invariant 0 <= i <= |stack|
        invariant forall j :: 0 <= j < i ==> stack[j].name == ns[j]
      {
        if stack[i].name != ns[i] {
          return false, None;
        }
        i := i + 1;
      }
      assert ns == NamesOf(stack);
      return true, None;
    }

    /** The loop of `add` that lists the names of the open tables. */
    method TableNames() returns (names: seq<string>)
      ensures names == NamesOf(stack)
    {
      names := [];
      var i := 0;
      while i < |stack|
        invariant 0 <= i <= |stack|
        invariant names == NamesOf(stack[..i])
      {
        names := names + [stack[i].name];
        i := i + 1;
      }
      assert stack[..i] == stack;
    }

    /** The two loops of `compactRange` that build the new list of names. */
    method SpliceNames(first: nat, last: int, name: string) returns (names: seq<string>)
      requires first <= |stack| && -1 <= last < |stack|
      ensures names == Spliced(NamesOf(stack), first, last, name)
    {
      names := [];
      var i := 0;
      while i < first
        invariant 0 <= i <= first
        invariant names == NamesOf(stack)[..i]
      {
        names := names + [stack[i].name];
        i := i + 1;
      }
      names := names + [name];
      i := last + 1;
      while i < |stack|
        invariant last + 1 <= i <= |stack|
        invariant names == NamesOf(stack)[..first] + [name] + NamesOf(stack)[last + 1..i]
      {
        names := names + [stack[i].name];
        i := i + 1;
      }
    }

    /** `tableSizesForCompaction`. */
    method TableSizesForCompaction() returns (sizes: seq<U64>)
      ensures sizes == CompactionSizes(stack)
    {
      sizes := [];
      var i := 0;
      while i < |stack|
        invariant 0 <= i <= |stack|
        invariant sizes == CompactionSizes(stack[..i])
      {
        sizes := sizes + [Sub64(stack[i].size, 91)];
        i := i + 1;
      }
      assert stack[..i] == stack;
    }

    // -------------------------------------------------------------------
    // Reloading

    /** The loops of `reloadOnce`: `cur` from the open tables, then a
        reader for each name, reused or opened, until one fails. */
    method OpenTables(names: seq<string>, reuseOpen: bool)
      returns (newTables: seq<Reader>, cur: map<string, Reader>, err: Option<Error>)
      modifies this
      ensures var l := Loads(names, |names|, reuseOpen, CurOf(old(stack)), fs.files, old(nextHandle));
        newTables == l.tables && cur == l.cur && err == l.err && nextHandle == l.next
      ensures stack == old(stack) && closed == old(closed)
      ensures attempts == old(attempts) && failures == old(failures)
    {
      cur := map[];
      var i := 0;
      while i < |stack|
        invariant 0 <= i <= |stack|
        invariant cur == CurOf(stack[..i])
      {
        assert stack[..i + 1][..i] == stack[..i];
        cur := cur[stack[i].name := stack[i]];
        i := i + 1;
      }
      assert stack[..i] == stack;
      ghost var cur0 := cur;
      ghost var next0 := nextHandle;
      newTables := [];
      err := None;
      var k := 0;
      while k < |names|
        invariant 0 <= k <= |names| && nextHandle >= next0
        invariant Load(newTables, cur, nextHandle, None) == Loads(names, k, reuseOpen, cur0, fs.files, next0)
        invariant stack == old(stack) && closed == old(closed)
        invariant attempts == old(attempts) && failures == old(failures)
      {
        var name := names[k];
        var rd;
        if reuseOpen && name in cur {
          rd := cur[name];
          cur := cur - {name};
        } else {
          if Table(name) !in fs.files {
            err := Some(NotExist);
            LoadsStop(names, k + 1, |names|, reuseOpen, cur0, fs.files, next0);
            return;
          }
          match fs.files[Table(name)]
          case Data(t) =>
            rd := OpenReader(nextHandle, name, t);
            nextHandle := nextHandle + 1;
          case _ =>
            err := Some(NotATable(name));
            LoadsStop(names, k + 1, |names|, reuseOpen, cur0, fs.files, next0);
            return;
        }
        newTables := newTables + [rd];
        k := k + 1;
      }
    }

    /** `reloadOnce` as stack.go writes it: on success the new readers
        replace the stack and the readers left in `cur` are closed; on
        failure the deferred loop closes every reader gathered so far,
        reused ones included, while the stack keeps them. */
    method ReloadOnceAsWritten(names: seq<string>, reuseOpen: bool) returns (err: Option<Error>)
      modifies this
      ensures var l := Loads(names, |names|, reuseOpen, CurOf(old(stack)), fs.files, old(nextHandle));
        err == l.err && nextHandle == l.next
        && (err.None? ==> stack == l.tables && closed == old(closed) + HandlesOf(l.cur))
        && (err.Some? ==> stack == old(stack) && closed == old(closed) + Handles(l.tables))
      ensures attempts == old(attempts) && failures == old(failures)
    {
      var newTables, cur;
      newTables, cur, err := OpenTables(names, reuseOpen);
      if err.Some? {
        closed := closed + Handles(newTables);
        return;
      }
      stack := newTables;
      closed := closed + HandlesOf(cur);
    }

    /** `reloadOnce` closing, on failure, only the readers it opened: the
        stack stays open and valid whichever way it ends. */
    method ReloadOnce(names: seq<string>, reuseOpen: bool) returns (err: Option<Error>)
      requires Valid()
      modifies this
      ensures Valid()
      ensures var l := Loads(names, |names|, reuseOpen, CurOf(old(stack)), fs.files, old(nextHandle));
        err == l.err && nextHandle == l.next
        && (err.None? ==> stack == l.tables && closed == old(closed) + HandlesOf(l.cur))
        && (err.Some? ==> stack == old(stack) && closed == old(closed) + FreshHandles(l.tables, old(nextHandle)))
      ensures attempts == old(attempts) && failures == old(failures)
    {
      ReloadKeepsOpen(stack, names, reuseOpen, fs.files, closed, nextHandle);
      FailedReloadKeepsOpen(stack, names, reuseOpen, fs.files, closed, nextHandle);
      var start := nextHandle;
      var newTables, cur;
      newTables, cur, err := OpenTables(names, reuseOpen);
      if err.Some? {
        closed := closed + FreshHandles(newTables, start);
        return;
      }
      stack := newTables;
      closed := closed + HandlesOf(cur);
    }

    /** One attempt of `reload`: read the names and reload them. When a
        table is missing, `reload` reads the names again and, finding them
        unchanged (nothing else changes the directory here), reports
        `os.ErrNotExist`. The step it runs is the corrected `ReloadOnce`:
        on failure only the readers this call opened are closed. */
    method Reload(reuseOpen: bool) returns (err: Option<Error>)
      requires Valid()
      modifies this
      ensures Valid()
      ensures NamesIn(ListFileOf(fs.files)).None? ==>
        err == Some(ReadFailed) && stack == old(stack) && closed == old(closed) && nextHandle == old(nextHandle)
      ensures NamesIn(ListFileOf(fs.files)).Some? ==>
        var names := NamesIn(ListFileOf(fs.files)).value;
        var l := Loads(names, |names|, reuseOpen, CurOf(old(stack)), fs.files, old(nextHandle));
        err == l.err && nextHandle == l.next
        && (err.None? ==> stack == l.tables && NamesOf(stack) == names && closed == old(closed) + HandlesOf(l.cur))
        && (err.Some? ==> stack == old(stack) && closed == old(closed) + FreshHandles(l.tables, old(nextHandle)))
      ensures attempts == old(attempts) && failures == old(failures)
    {
      var names := ReadNames(ListFileOf(fs.files));
      if names.None? {
        return Some(ReadFailed);
      }
      ReloadNames(stack, names.value, reuseOpen, fs.files, nextHandle);
      err := ReloadOnce(names.value, reuseOpen);
      if err.None? {
        return None;
      }
      if err != Some(NotExist) {
        return err;
      }
      var after := ReadNames(ListFileOf(fs.files));
      assert after == names;
      return Some(NotExist);
    }

    // -------------------------------------------------------------------
    // Adding a table

    /** `add`: under the list lock, and only if the stack is current, write
        a table at the next update index and put it on top of the list.
        The lock is removed on every exit; the temporary table is not,
        since the deferred removal names the lock file instead (stack.go:253);
        and once the table is in place, a failure removes it again. */
    method TryAdd(written: Option<TableData>, faults: set<Step>) returns (err: Option<Error>)
      requires Valid()
      modifies this, fs
      ensures Valid()
      ensures attempts == old(attempts) && failures == old(failures)
      ensures ListLock in old(fs.files) ==>
                err == Some(LockFailure) && fs.files == old(fs.files) && stack == old(stack)
      ensures ListLock !in old(fs.files) ==> ListLock !in fs.files
      ensures ListLock !in old(fs.files) && AddLockOpen in faults ==>
                err == Some(Failed(AddLockOpen)) && fs.files == old(fs.files) && stack == old(stack)
      ensures AddLocked(old(fs.files), faults) && !Current(old(fs.files), old(stack)) ==>
                err == (if NamesIn(ListFileOf(old(fs.files))).None? then Some(ReadFailed) else Some(LockFailure))
                && fs.files == old(fs.files) && stack == old(stack)
      ensures AddLocked(old(fs.files), faults) && Current(old(fs.files), old(stack)) ==>
                AddEnds(old(fs.files), fs.files, old(stack), old(fs.nextTemp), written, faults, err)
                && (err.Some? ==> stack == old(stack))
                && (NoAddFault(old(stack), written, faults) && err.None? ==>
                      NamesOf(stack) == NamesOf(old(stack)) + [AddedName(old(stack))])
    {
      var c := fs.Create(ListLock, AddLockOpen in faults);
      if c == Exists {
        return Some(LockFailure);
      }
      if c == CreateFailed {
        return Some(Failed(AddLockOpen));
      }
      // From here on the deferred `os.Remove(lockFile)` runs on every exit
      // until the lock has been renamed over the list file.
      ghost var locked := fs.files;
      var ok, e := UpToDate();
      if e.Some? {
        ok := fs.Remove(ListLock, false);
        return e;
      }
      if !ok {
        ok := fs.Remove(ListLock, false);
        return Some(LockFailure);
      }
      assert Current(old(fs.files), stack);
      err := AddUnderLock(written, faults);
      if err.Some? {
        AddFailedEnds(old(fs.files), locked, fs.files, stack, old(fs.nextTemp), written, faults, err);
        ok := fs.Remove(ListLock, false);
        return;
      }
      ghost var names := NamesOf(stack) + [AddedName(stack)];
      if ListFileOf(old(fs.files)).Present? {
        NamesAreNames(ListFileOf(old(fs.files)).text);
      }
      TableNameIsName(NextIndex(stack), NextIndex(stack));
      NamesRoundTrip(names);
      assert locked - {ListLock} == old(fs.files);
      err := Reload(true);
    }

    /** The work `add` does under the lock, for a current stack: the
        temporary table, the write, and putting the table and the new list
        in place. The lock stays on failure, for the caller to remove. */
    method AddUnderLock(written: Option<TableData>, faults: set<Step>) returns (err: Option<Error>)
      requires fs.Valid() && ListLock in fs.files
      modifies fs
      ensures fs.Valid()
      ensures err.Some? ==> ListLock in fs.files
      ensures AddLockedEnds(old(fs.files), fs.files, stack, old(fs.nextTemp), written, faults, err)
    {
      var names := TableNames();
      var next := NextUpdateIndex();
      var fn := FormatName(next, next);
      var tab := fs.CreateTemp(AddTempCreate in faults);
      if tab.None? {
        return Some(Failed(AddTempCreate));
      }
      // The deferred `os.Remove(f.Name())` removes the lock file once more,
      // which is already gone by then: the temporary table stays.
      err := WriteTable(tab.value, written, faults, next);
      if err.Some? {
        return;
      }
      if AddRename in faults {
        return Some(Failed(AddRename));
      }
      var dest := fn + ".ref";
      names := names + [dest];
      err := PlaceTable(tab.value, Table(dest), names, faults);
    }

    /** The end of `add`: the table renamed into place, then the new list
        written into the lock and the lock renamed over the list file; a
        failure after the first rename removes the table again. */
    method PlaceTable(tab: Path, dest: Path, names: seq<string>, faults: set<Step>) returns (err: Option<Error>)
      requires fs.Valid() && tab in fs.files && ListLock in fs.files && tab.Temp? && dest.Table?
      requires AddRename !in faults
      modifies fs
      ensures fs.Valid()
      ensures err == CommitError(faults) && tab !in fs.files
      ensures err.Some? ==> ListLock in fs.files && dest !in fs.files
                            && SameExcept(old(fs.files), fs.files, {tab, dest, ListLock})
      ensures err.None? ==>
        fs.files == ((old(fs.files) - {tab})[dest := old(fs.files)[tab]] - {ListLock})[ListFile := Text(Join(names))]
    {
      var ok := fs.Rename(tab, dest, false);
      ok := fs.Write(ListLock, Text(Join(names)), AddListWrite in faults);
      if !ok {
        ok := fs.Remove(dest, false);
        return Some(Failed(AddListWrite));
      }
      if AddListClose in faults {
        ok := fs.Remove(dest, false);
        return Some(Failed(AddListClose));
      }
      ok := fs.Rename(ListLock, ListFile, AddListRename in faults);
      if !ok {
        ok := fs.Remove(dest, false);
        return Some(Failed(AddListRename));
      }
      return None;
    }

    /** The part of `add` between `TempFile` and the rename: the write
        callback, the writer's `Close`, which writes the table out, the
        file's `Close`, and the check of the writer's minimum update index. */
    method WriteTable(tab: Path, written: Option<TableData>, faults: set<Step>, next: U64) returns (err: Option<Error>)
      requires fs.Valid() && tab in fs.files
      modifies fs
      ensures fs.Valid() && fs.nextTemp == old(fs.nextTemp)
      ensures err == (var e := WriteError(written, faults, next); if e == Some(Failed(AddRename)) then None else e)
      ensures tab in fs.files && SameExcept(old(fs.files), fs.files, {tab})
      ensures err.None? ==> fs.files == old(fs.files)[tab := Data(written.value)]
    {
      if written.None? {
        return Some(Failed(AddWrite));
      }
      if AddWriterClose in faults {
        return Some(Failed(AddWriterClose));
      }
      var ok := fs.Write(tab, Data(written.value), false);
      if AddTempClose in faults {
        return Some(Failed(AddTempClose));
      }
      if written.value.minUpdateIndex < next {
        return Some(LockFailure);
      }
      return None;
    }

    // -------------------------------------------------------------------
    // Compaction

    /** The loop of `compactRange` that locks each table of `[first,
        last]` in turn; it stops at a lock that exists (`contended`) or
        that cannot be made (`err`). */
    method LockTables(first: nat, last: nat, faults: set<Step>) returns (taken: seq<string>, contended: bool, err: Option<Error>)
      requires fs.Valid() && first <= last < |stack|
      modifies fs
      ensures fs.Valid() && fs.nextTemp == old(fs.nextTemp)
      ensures |taken| <= last + 1 - first && taken == NamesOf(stack)[first..first + |taken|]
      ensures fs.files == Locked(old(fs.files), taken) && LocksFree(old(fs.files), taken, faults)
      ensures !contended && err.None? ==> |taken| == last + 1 - first
      ensures contended ==> err.None? && |taken| <= last - first && TableLock(stack[first + |taken|].name) in fs.files
      ensures err.Some? ==> |taken| <= last - first && err == Some(Failed(CompactTableLock(stack[first + |taken|].name)))
                            && CompactTableLock(stack[first + |taken|].name) in faults
    {
      hide Locked, LocksFree;
      taken := [];
      contended := false;
      err := None;
      LockedNone(fs.files, faults);
      var i := first;
      while i <= last
        invariant first <= i <= last + 1 && |taken| == i - first
        invariant taken == NamesOf(stack)[first..i]
        invariant fs.Valid() && fs.nextTemp == old(fs.nextTemp)
        invariant fs.files == Locked(old(fs.files), taken) && LocksFree(old(fs.files), taken, faults)
      {
        var name := stack[i].name;
        var c := fs.Create(TableLock(name), CompactTableLock(name) in faults);
        if c == Exists {
          contended := true;
          return;
        }
        if c == CreateFailed {
          err := Some(Failed(CompactTableLock(name)));
          return;
        }
        LockTaken(old(fs.files), taken, name, faults);
        assert NamesOf(stack)[first..i + 1] == NamesOf(stack)[first..i] + [name];
        taken := taken + [name];
        i := i + 1;
      }
    }

    /** The deferred loop of `compactRange` that removes the table locks it
        took. */
    method RemoveLocks(taken: seq<string>)
      requires fs.Valid()
      modifies fs
      ensures fs.Valid() && fs.nextTemp == old(fs.nextTemp)
      ensures fs.files == old(fs.files) - LockPaths(taken)
    {
      var i := 0;
      while i < |taken|
        invariant 0 <= i <= |taken|
        invariant fs.Valid() && fs.nextTemp == old(fs.nextTemp)
        invariant fs.files == old(fs.files) - LockPaths(taken[..i])
      {
        var ok := fs.Remove(TableLock(taken[i]), false);
        assert taken[..i + 1] == taken[..i] + [taken[i]];
        LockPathsSnoc(taken[..i], taken[i]);
        i := i + 1;
      }
      assert taken[..i] == taken;
    }

    /** `compactLocked` and `writeCompact`: a temporary table holding the
        kept records of the range, or an error, in which case the
        temporary file is removed again. */
    method CompactLocked(first: nat, last: nat, expiration: Option<Expiration>, input: Merged, faults: set<Step>)
      returns (tmp: Path, err: Option<Error>)
      requires fs.Valid() && first < |stack| && last < |stack|
      modifies fs
      ensures fs.Valid() && tmp == Temp(old(fs.nextTemp)) && tmp !in old(fs.files)
      ensures err == CompactLockedError(faults)
      ensures err.Some? ==> SameExcept(old(fs.files), fs.files, {tmp}) && tmp !in fs.files
      ensures err.None? ==> fs.files == old(fs.files)[tmp := Data(CompactedTable(stack, first, last, expiration, input))]
    {
      tmp := Temp(fs.nextTemp);
      var t := fs.CreateTemp(CompactTempCreate in faults);
      if t.None? {
        return tmp, Some(Failed(CompactTempCreate));
      }
      var refs, logs := WriteCompact(first, input.refs, input.logs, expiration);
      var table := TableData(stack[first].minUpdateIndex, stack[last].maxUpdateIndex, input.size, refs, logs);
      var ok;
      if CompactWrite in faults {
        ok := fs.Remove(tmp, false);
        return tmp, Some(Failed(CompactWrite));
      }
      if CompactWriterClose in faults {
        ok := fs.Remove(tmp, false);
        return tmp, Some(Failed(CompactWriterClose));
      }
      ok := fs.Write(tmp, Data(table), false);
      if CompactTempClose in faults {
        ok := fs.Remove(tmp, false);
        return tmp, Some(Failed(CompactTempClose));
      }
      return tmp, None;
    }

    /** The loop of `compactRange` over `deleteOnSuccess`: every compacted
        table except the new one is removed. */
    method RemoveSuperseded(doomed: seq<string>, dest: Path)
      requires fs.Valid()
      modifies fs
      ensures fs.Valid() && fs.nextTemp == old(fs.nextTemp)
      ensures fs.files == old(fs.files) - (TablePaths(doomed) - {dest})
    {
      var i := 0;
      while i < |doomed|
        invariant 0 <= i <= |doomed|
        invariant fs.Valid() && fs.nextTemp == old(fs.nextTemp)
        invariant fs.files == old(fs.files) - (TablePaths(doomed[..i]) - {dest})
      {
        var ok;
        if Table(doomed[i]) != dest {
          ok := fs.Remove(Table(doomed[i]), false);
        }
        assert doomed[..i + 1] == doomed[..i] + [doomed[i]];
        TablePathsSnoc(doomed[..i], doomed[i]);
        i := i + 1;
      }
      assert doomed[..i] == doomed;
    }

    /** The end of `compactRange`, holding the list lock again: the table
        is renamed into place, the spliced list is written to the lock and
        renamed over the list, and the superseded tables are removed. On a
        failure the list lock is left for the caller to remove. */
    method CommitCompaction(tmp: Path, first: nat, last: nat, taken: seq<string>, expiration: Option<Expiration>,
                            input: Merged, faults: set<Step>)
      returns (err: Option<Error>)
      requires fs.Valid() && first <= last < |stack| && taken == NamesOf(stack)[first..last + 1]
      requires tmp.Temp? && tmp in fs.files && fs.files[tmp] == Data(CompactedTable(stack, first, last, expiration, input))
      requires ListLock in fs.files
      requires CompactError(faults) != Some(Failed(CompactLockRemove)) && CompactLockedError(faults).None?
      requires CompactLockReopen !in faults
      modifies fs
      ensures fs.Valid() && fs.nextTemp == old(fs.nextTemp)
      ensures err == CompactError(faults)
      ensures fs.files - {ListLock}
           == CompactOutcome(old(fs.files) - {tmp, ListLock}, stack, tmp.id, first, last, expiration, input, faults)
      ensures err.None? ==> ListLock !in fs.files
    {
      var name := FormatName(stack[first].minUpdateIndex, stack[last].maxUpdateIndex) + ".ref";
      var dest := Table(name);
      var ok := fs.Rename(tmp, dest, CompactRename in faults);
      if !ok {
        return Some(Failed(CompactRename));
      }
      var names := SpliceNames(first, last, name);
      ghost var placed := fs.files;
      assert placed - {ListLock} == (old(fs.files) - {tmp, ListLock})[dest := old(fs.files)[tmp]];
      err := PublishList(names, dest, taken, faults);
    }

    /** The list part of the commit of `compactRange`: the spliced names are
        written to the list lock, which is renamed over the list, and the
        superseded tables are removed; the new table is removed again when
        the list cannot be written, closed or renamed. */
    method PublishList(names: seq<string>, dest: Path, taken: seq<string>, faults: set<Step>) returns (err: Option<Error>)
      requires fs.Valid() && ListLock in fs.files && dest.Table?
      modifies fs
      ensures fs.Valid() && fs.nextTemp == old(fs.nextTemp)
      ensures err == (if CompactListWrite in faults then Some(Failed(CompactListWrite))
                      else if CompactListRename in faults then Some(Failed(CompactListRename)) else None)
      ensures err.Some? ==> fs.files - {ListLock} == (old(fs.files) - {ListLock}) - {dest}
      ensures err.None? ==>
                fs.files == ((if CompactListClose in faults then old(fs.files) - {ListLock} - {dest}
                              else old(fs.files) - {ListLock})[ListFile := Text(Join(names))])
                            - (TablePaths(taken) - {dest})
    {
      var ok := fs.Write(ListLock, Text(Join(names)), CompactListWrite in faults);
      if !ok {
        ok := fs.Remove(dest, false);
        return Some(Failed(CompactListWrite));
      }
      if CompactListClose in faults {
        ok := fs.Remove(dest, false);
      }
      ok := fs.Rename(ListLock, ListFile, CompactListRename in faults);
      if !ok {
        ok := fs.Remove(dest, false);
        return Some(Failed(CompactListRename));
      }
      RemoveSuperseded(taken, dest);
      return None;
    }

    /** `compactRange` from stack.go:479 to the removal of the superseded
        tables, holding the table locks: the list lock is released while
        the compacted table is written, then taken again to commit. */
    method CompactUnlocked(first: nat, last: nat, taken: seq<string>, expiration: Option<Expiration>, input: Merged,
                           faults: set<Step>)
      returns (err: Option<Error>)
      requires fs.Valid() && first <= last < |stack| && taken == NamesOf(stack)[first..last + 1]
      requires ListLock in fs.files <==> CompactLockOpen !in faults
      modifies fs
      ensures fs.Valid()
      ensures err == CompactError(faults)
      ensures fs.files == CompactOutcome(old(fs.files) - {ListLock}, stack, old(fs.nextTemp), first, last,
                                         expiration, input, faults)
      ensures err.None? ==> ListFile in fs.files
                            && fs.files[ListFile] == Text(Join(Spliced(NamesOf(stack), first, last, CompactedName(stack, first, last))))
    {
      var removed := fs.Remove(ListLock, CompactLockRemove in faults);
      if !removed {
        removed := fs.Remove(ListLock, false);
        return Some(Failed(CompactLockRemove));
      }
      ghost var unlocked := fs.files;
      var tmp, e := CompactLocked(first, last, expiration, input, faults);
      if e.Some? {
        SameExceptRestore(unlocked, fs.files, {tmp});
        return e;
      }
      var c := fs.Create(ListLock, CompactLockReopen in faults);
      if c != Created {
        removed := fs.Remove(ListLock, false);
        return Some(Failed(CompactLockReopen));
      }
      assert fs.files - {tmp, ListLock} == unlocked;
      err := CommitCompaction(tmp, first, last, taken, expiration, input, faults);
      if err.Some? {
        removed := fs.Remove(ListLock, false);
      }
    }

    /** `compactRange` from stack.go:479 on, holding the table locks: the
        directory work, then a reload that reuses the open readers unless
        log records were expired. */
    method CompactTables(first: nat, last: nat, taken: seq<string>, expiration: Option<Expiration>, input: Merged,
                         faults: set<Step>)
      returns (ok: bool, err: Option<Error>)
      requires Valid() && first <= last < |stack| && taken == NamesOf(stack)[first..last + 1]
      requires ListLock in fs.files <==> CompactLockOpen !in faults
      requires Current(fs.files, stack)
      modifies this, fs
      ensures Valid() && attempts == old(attempts) && failures == old(failures)
      ensures fs.files == CompactOutcome(old(fs.files) - {ListLock}, old(stack), old(fs.nextTemp), first, last,
                                         expiration, input, faults)
      ensures ok == CompactError(faults).None?
      ensures !ok ==> err == CompactError(faults) && stack == old(stack)
      ensures ok && err.None? ==>
                NamesOf(stack) == Spliced(NamesOf(old(stack)), first, last, CompactedName(old(stack), first, last))
      ensures ok && err.Some? ==> stack == old(stack)
    {
      var e := CompactUnlocked(first, last, taken, expiration, input, faults);
      if e.Some? {
        return false, e;
      }
      SplicedListReads(old(fs.files), fs.files, stack, first, last);
      err := Reload(expiration.None?);
      return true, err;
    }

    /** `compactRange` from the locking of the tables on: it gives up when
        one of them is locked or cannot be locked, and otherwise compacts
        them; every table lock it took is removed at the end. */
    method CompactWithLocks(first: nat, last: nat, expiration: Option<Expiration>, input: Merged, faults: set<Step>)
      returns (ok: bool, err: Option<Error>)
      requires Valid() && first <= last < |stack|
      requires ListLock in fs.files <==> CompactLockOpen !in faults
      requires Current(fs.files, stack)
      modifies this, fs
      ensures Valid() && attempts == old(attempts) && failures == old(failures)
      ensures LockedEnds(old(fs.files), fs.files, old(stack), stack, old(fs.nextTemp), first, last, expiration, input,
                         faults, ok, err)
    {
      ghost var before := fs.files;
      ghost var rs := stack;
      ghost var nextTemp := fs.nextTemp;
      var taken, contended, lockErr := LockTables(first, last, faults);
      if contended || lockErr.Some? {
        ReleaseLocks(taken);
        GaveUpEnds(before, fs.files, rs, taken, contended, lockErr, nextTemp, first, last, expiration, input, faults);
        return false, lockErr;
      }
      LocksTaken(before, taken, faults);
      ok, err := CompactAndUnlock(first, last, taken, expiration, input, faults);
      AllLockedEnds(before, fs.files, rs, stack, nextTemp, first, last, expiration, input, faults, ok, err);
    }

    /** The deferred removals of `compactRange` when it gives up while
        locking the tables: the table locks and the list lock. */
    method ReleaseLocks(taken: seq<string>)
      requires fs.Valid()
      modifies fs
      ensures fs.Valid()
      ensures fs.files == (old(fs.files) - LockPaths(taken)) - {ListLock}
    {
      RemoveLocks(taken);
      var removed := fs.Remove(ListLock, false);
    }

    /** `compactRange` once every table of the range is locked: the
        compaction, then the deferred removal of the table locks. */
    method CompactAndUnlock(first: nat, last: nat, taken: seq<string>, expiration: Option<Expiration>, input: Merged,
                            faults: set<Step>)
      returns (ok: bool, err: Option<Error>)
      requires Valid() && first <= last < |stack| && taken == NamesOf(stack)[first..last + 1]
      requires ListLock in fs.files <==> CompactLockOpen !in faults
      requires Current(fs.files, stack)
      modifies this, fs
      ensures Valid() && attempts == old(attempts) && failures == old(failures)
      ensures fs.files == CompactOutcome((old(fs.files) - LockPaths(taken)) - {ListLock}, old(stack), old(fs.nextTemp),
                                         first, last, expiration, input, faults)
      ensures ok == CompactError(faults).None?
      ensures !ok ==> err == CompactError(faults) && stack == old(stack)
      ensures ok && err.None? ==>
                NamesOf(stack) == Spliced(NamesOf(old(stack)), first, last, CompactedName(old(stack), first, last))
      ensures ok && err.Some? ==> stack == old(stack)
    {
      ghost var locked := fs.files;
      ok, err := CompactTables(first, last, taken, expiration, input, faults);
      RemoveLocks(taken);
      LocksReleased(locked - LockPaths(taken), locked, LockPaths(taken), old(stack), old(fs.nextTemp), first, last,
                    expiration, input, faults);
    }

    /** `compactRange` past its first check: the list is locked, the stack
        must be current, and the tables are locked and compacted. The
        compaction gives up without an error when the list is locked by
        someone else, and with the read error, if any, when the stack is
        not current. */
    method CompactLockingList(first: nat, last: nat, expiration: Option<Expiration>, input: Merged, faults: set<Step>)
      returns (ok: bool, err: Option<Error>)
      requires Valid() && first <= last < |stack|
      modifies this, fs
      ensures Valid() && attempts == old(attempts) && failures == old(failures)
      ensures CompactEnds(old(fs.files), fs.files, old(stack), stack, old(fs.nextTemp), first, last, expiration,
                          input, faults, ok, err)
    {
      var c := fs.Create(ListLock, CompactLockOpen in faults);
      if c == Exists {
        return false, None;
      }
      var upToDate, e := UpToDate();
      if !upToDate || e.Some? {
        var removed := fs.Remove(ListLock, false);
        return false, e;
      }
      ghost var locked := fs.files;
      ok, err := CompactWithLocks(first, last, expiration, input, faults);
      ListLockedEnds(old(fs.files), locked, fs.files, old(stack), stack, old(fs.nextTemp), first, last, expiration,
                     input, faults, ok, err);
    }

    /** `compactRange`: compacts the tables `[first, last]` into one, or
        reports why not; a range of at most one table without expiration
        needs no work. Every other call counts as an attempt. */
    method CompactRange(first: nat, last: int, expiration: Option<Expiration>, input: Merged, faults: set<Step>)
      returns (ok: bool, err: Option<Error>)
      requires Valid()
      requires (first >= last && expiration.None?) || first <= last < |stack|
      modifies this, fs
      ensures Valid() && failures == old(failures)
      ensures first >= last && expiration.None? ==>
                ok && err.None? && fs.files == old(fs.files) && stack == old(stack) && attempts == old(attempts)
      ensures !(first >= last && expiration.None?) ==>
                attempts == old(attempts) + 1
                && CompactEnds(old(fs.files), fs.files, old(stack), stack, old(fs.nextTemp), first, last, expiration,
                               input, faults, ok, err)
    {
      if first >= last && expiration.None? {
        return true, None;
      }
      attempts := attempts + 1;
      ok, err := CompactLockingList(first, last, expiration, input, faults);
    }

    /** `compactRangeStats`: `compactRange`, counting each failed
        compaction. */
    method CompactRangeStats(first: nat, last: int, expiration: Option<Expiration>, input: Merged, faults: set<Step>)
      returns (ok: bool, err: Option<Error>)
      requires Valid()
      requires (first >= last && expiration.None?) || first <= last < |stack|
      modifies this, fs
      ensures Valid()
      ensures failures == old(failures) + (if ok then 0 else 1)
      ensures first >= last && expiration.None? ==>
                ok && err.None? && fs.files == old(fs.files) && stack == old(stack) && attempts == old(attempts)
      ensures !(first >= last && expiration.None?) ==>
                attempts == old(attempts) + 1
                && CompactEnds(old(fs.files), fs.files, old(stack), stack, old(fs.nextTemp), first, last, expiration,
                               input, faults, ok, err)
    {
      ok, err := CompactRange(first, last, expiration, input, faults);
      if !ok {
        failures := failures + 1;
      }
    }

    /** `AutoCompact`: compacts the range `suggestCompactionSegment` picks
        from the table sizes, if any, without expiring log records. A table
        of exactly 91 bytes has compaction size 0, whose logarithm panics.
        `ok` tells whether a compaction that ran succeeded. */
    method AutoCompact(input: Merged, faults: set<Step>) returns (err: Option<Error>, ghost ok: bool)
      requires Valid()
      modifies this, fs
      ensures Valid()
      ensures !Positive(CompactionSizes(old(stack))) ==>
                err == Some(Panic) && fs.files == old(fs.files) && stack == old(stack) && attempts == old(attempts)
                && failures == old(failures)
      ensures Sum(CompactionSizes(old(stack))) >= TWO64 ==>
                fs.files == old(fs.files) && stack == old(stack) && attempts == old(attempts)
      ensures Positive(CompactionSizes(old(stack))) && Sum(CompactionSizes(old(stack))) < TWO64 ==>
                AutoCompactEnds(old(fs.files), fs.files, old(stack), stack, old(fs.nextTemp),
                                Suggest(CompactionSizes(old(stack))), input, faults,
                                attempts - old(attempts), failures - old(failures), ok, err)
    {
      var sizes := TableSizesForCompaction();
      ok := true;
      if exists i :: 0 <= i < |sizes| && sizes[i] == 0 {
        return Some(Panic), ok;
      }
      if Sum(sizes) >= TWO64 {
        return None, ok;
      }
      var seg := SuggestCompactionSegment(sizes);
      SuggestBounds(sizes);
      err, ok := CompactSegment(seg, input, faults);
    }

    /** The compaction `AutoCompact` runs on a suggested segment. */
    method CompactSegment(seg: Option<Segment>, input: Merged, faults: set<Step>) returns (err: Option<Error>, ghost ok: bool)
      requires Valid() && (seg.Some? ==> seg.value.end - seg.value.start >= 2 && seg.value.end <= |stack|)
      modifies this, fs
      ensures Valid()
      ensures AutoCompactEnds(old(fs.files), fs.files, old(stack), stack, old(fs.nextTemp), seg, input, faults,
                              attempts - old(attempts), failures - old(failures), ok, err)
    {
      err, ok := None, true;
      if seg.Some? {
        ok, err := CompactRangeStats(seg.value.start, seg.value.end - 1, None, input, faults);
      }
    }

    /** `CompactAll`: compacts the whole stack, expiring log records when
        an expiration is given. On an empty stack an expiration would make
        it read the first table, which does not exist. `ok` is what
        `compactRange` reports. */
    method CompactAll(expiration: Option<Expiration>, input: Merged, faults: set<Step>)
      returns (err: Option<Error>, ghost ok: bool)
      requires Valid()
      requires |stack| > 0 || expiration.None?
      modifies this, fs
      ensures Valid() && failures == old(failures)
      ensures |old(stack)| <= 1 && expiration.None? ==>
                err.None? && fs.files == old(fs.files) && stack == old(stack) && attempts == old(attempts)
      ensures !(|old(stack)| <= 1 && expiration.None?) ==>
                attempts == old(attempts) + 1
                && CompactEnds(old(fs.files), fs.files, old(stack), stack, old(fs.nextTemp), 0, |old(stack)| - 1,
                               expiration, input, faults, ok, err)
    {
      ok, err := CompactRange(0, |stack| - 1, expiration, input, faults);
    }

    /** `Add`: the transaction of `add`, then an automatic compaction. When
        another writer holds the lock or the stack is stale the stack is
        reloaded and the error returned; any other error is returned as it
        is, and no compaction is attempted after a failed addition. */
    method Add(written: Option<TableData>, faults: set<Step>, input: Merged) returns (err: Option<Error>)
      requires Valid()
      modifies this, fs
      ensures Valid()
      ensures ListLock in old(fs.files) ==> err == Some(LockFailure) && fs.files == old(fs.files)
      ensures ListLock !in old(fs.files) && AddLockOpen in faults ==>
                err == Some(Failed(AddLockOpen)) && fs.files == old(fs.files) && stack == old(stack)
      ensures AddLocked(old(fs.files), faults) && !Current(old(fs.files), old(stack)) ==>
                err == (if NamesIn(ListFileOf(old(fs.files))).None? then Some(ReadFailed) else Some(LockFailure))
                && fs.files == old(fs.files)
      ensures attempts > old(attempts) ==>
                AddLocked(old(fs.files), faults) && Current(old(fs.files), old(stack))
                && NoAddFault(old(stack), written, faults)
      ensures attempts <= old(attempts) + 1
    {
      err := TryAdd(written, faults);
      if err.Some? {
        if err == Some(LockFailure) {
          var reloadErr := Reload(true);
        }
        return err;
      }
      ghost var ok;
      err, ok := AutoCompact(input, faults);
    }
  }

  /** A successful reload names the tables of the list file, in order. */
  lemma ReloadNames(rs: seq<Reader>, names: seq<string>, reuse: bool, files: map<Path, File>, next0: nat)
    ensures var l := Loads(names, |names|, reuse, CurOf(rs), files, next0);
      l.err.None? ==> NamesOf(l.tables) == names
  {
    var l := Loads(names, |names|, reuse, CurOf(rs), files, next0);
    LoadsShape(names, |names|, reuse, CurOf(rs), files, next0);
    CurOfReaders(rs);
    if l.err.None? {
      forall i | 0 <= i < |names|
        ensures l.tables[i].name == names[i]
      {
        assert Origin(l.tables[i], names[i], reuse, CurOf(rs), files, next0, l.next);
      }
    }
  }

  /** The stack `[a]` reloaded, reusing open readers, from the names
      `[a, b]` with table `b` missing: as written, the failure closes the
      reused reader of `a`, which the stack still holds. */
  method ReloadClosesReusedReader() returns (err: Option<Error>, stillOpen: bool)
    ensures err == Some(NotExist) && !stillOpen
  {
    var t := TableData(1, 1, 100, [], []);
    var fs := new FileSystem(map[Table("a") := Data(t)]);
    var st := new Stack(fs);
    st.stack := [OpenReader(0, "a", t)];
    st.nextHandle := 1;
    err := st.ReloadOnceAsWritten(["a", "b"], true);
    assert Loads(["a", "b"], 1, true, CurOf([OpenReader(0, "a", t)]), fs.files, 1).tables == [OpenReader(0, "a", t)];
    stillOpen := AllOpen(st.stack, st.closed, st.nextHandle);
    assert st.stack[0].handle == 0 && 0 in st.closed;
  }
}
