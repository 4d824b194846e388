/** The readers of a stack and the bookkeeping of `reloadOnce` in
    stack.go: which readers of the current stack are reused for the names
    of the list file, which tables are opened anew, and which readers are
    closed. A reader is identified by a handle; closing a reader puts its
    handle in a set of closed handles. */
module Readers {
  import opened Bytes
  import opened FileSystems

  /** An open table: its handle, its name in the list file, and what
      `MinUpdateIndex`, `MaxUpdateIndex` and `size` report. */
  datatype Reader = Reader(handle: nat, name: string, minUpdateIndex: U64, maxUpdateIndex: U64, size: U64)

  /** The call sites of stack.go whose I/O can fail. */
  datatype Step =
    | AddLockOpen | AddTempCreate | AddWrite | AddWriterClose | AddTempClose
    | AddRename | AddListWrite | AddListClose | AddListRename
    | CompactLockOpen | CompactTableLock(table: string) | CompactLockRemove
    | CompactTempCreate | CompactWrite | CompactWriterClose | CompactTempClose
    | CompactLockReopen | CompactRename | CompactListWrite | CompactListClose | CompactListRename

  /** The errors of the stack: `ErrLockFailure`, `os.ErrNotExist`, a list
      file that cannot be read, a file that `NewReader` rejects, a failed
      I/O call, and the panic of `log2(0)`. */
  datatype Error = LockFailure | NotExist | ReadFailed | NotATable(name: string) | Failed(step: Step) | Panic

  /** `NewReader` on a table file. */
  function OpenReader(handle: nat, name: string, t: TableData): (r: Reader)
    ensures r.handle == handle && r.name == name
  {
    Reader(handle, name, t.minUpdateIndex, t.maxUpdateIndex, t.size)
  }

  /** The names of the readers, in order. */
  function NamesOf(rs: seq<Reader>): (names: seq<string>)
    ensures |names| == |rs| && forall i :: 0 <= i < |rs| ==> names[i] == rs[i].name
  {
    seq(|rs|, i requires 0 <= i < |rs| => rs[i].name)
  }

  /** The `cur` map of `reloadOnce`: each name of the stack to its reader,
      a later reader of the same name replacing an earlier one. */
  function CurOf(rs: seq<Reader>): map<string, Reader>
  {
    if rs == [] then map[] else CurOf(rs[..|rs| - 1])[rs[|rs| - 1].name := rs[|rs| - 1]]
  }

  /** `cur` maps exactly the names of the stack, each to a reader of the
      stack with that name. */
  lemma {:induction false} CurOfReaders(rs: seq<Reader>)
    ensures forall k :: k in CurOf(rs) ==> CurOf(rs)[k] in rs && CurOf(rs)[k].name == k
    ensures forall i :: 0 <= i < |rs| ==> rs[i].name in CurOf(rs)
    decreases |rs|
  {
    if rs != [] {
      var init := rs[..|rs| - 1];
      CurOfReaders(init);
      assert rs == init + [rs[|rs| - 1]];
    }
  }

  /** No two readers share a handle. */
  predicate Distinct(rs: seq<Reader>)
  {
    forall i, j :: 0 <= i < j < |rs| ==> rs[i].handle != rs[j].handle
  }

  /** The readers are distinct, were handed out (below `next`) and are not
      closed. */
  predicate AllOpen(rs: seq<Reader>, closed: set<nat>, next: nat)
  {
    Distinct(rs) && forall i :: 0 <= i < |rs| ==> rs[i].handle < next && rs[i].handle !in closed
  }

  function Handles(rs: seq<Reader>): set<nat>
  {
    set i | 0 <= i < |rs| :: rs[i].handle
  }

  /** The handles of the readers in `cur`. */
  function HandlesOf(cur: map<string, Reader>): set<nat>
  {
    set k | k in cur :: cur[k].handle
  }

  /** The handles of the readers opened from `next` on. */
  function FreshHandles(rs: seq<Reader>, next: nat): set<nat>
  {
    set i | 0 <= i < |rs| && rs[i].handle >= next :: rs[i].handle
  }

  // ---------------------------------------------------------------------
  // The loop of reloadOnce

  /** The state of the loop over the names: `newTables`, what is left of
      `cur`, the next handle, and the error that ended the loop. */
  datatype Load = Load(tables: seq<Reader>, cur: map<string, Reader>, next: nat, err: Option<Error>)

  /** One name: reuse its reader (and take it out of `cur`) when asked to
      and there is one, otherwise open its table; a missing table is
      `NotExist` and a file that is not a table is rejected. */
  function LoadStep(l: Load, name: string, reuse: bool, files: map<Path, File>): Load
  {
    if reuse && name in l.cur then Load(l.tables + [l.cur[name]], l.cur - {name}, l.next, None)
    else if Table(name) !in files then l.(err := Some(NotExist))
    else match files[Table(name)]
      case Data(t) => Load(l.tables + [OpenReader(l.next, name, t)], l.cur, l.next + 1, None)
      case _ => l.(err := Some(NotATable(name)))
  }

  /** The loop after the first `n` names; it stops at the first error. */
  function Loads(names: seq<string>, n: nat, reuse: bool, cur0: map<string, Reader>, files: map<Path, File>,
                 next0: nat): Load
    requires n <= |names|
  {
    if n == 0 then Load([], cur0, next0, None)
    else
      var l := Loads(names, n - 1, reuse, cur0, files, next0);
      if l.err.Some? then l else LoadStep(l, names[n - 1], reuse, files)
  }

  /** Once the loop has stopped, later names change nothing. */
  lemma {:induction false} LoadsStop(names: seq<string>, m: nat, n: nat, reuse: bool, cur0: map<string, Reader>,
                                     files: map<Path, File>, next0: nat)
    requires m <= n <= |names| && Loads(names, m, reuse, cur0, files, next0).err.Some?
    ensures Loads(names, n, reuse, cur0, files, next0) == Loads(names, m, reuse, cur0, files, next0)
    decreases n
  {
    if n > m {
      LoadsStop(names, m, n - 1, reuse, cur0, files, next0);
    }
  }

  /** What the loop builds: one reader per name processed, in order, each
      either the reader `cur` held for that name (only when reusing) or a
      new reader of that name's table with a handle not handed out before;
      when it stops, the name it stopped at could be neither reused nor
      opened, and the error says which (see `Shaped`). */
  lemma {:induction false} LoadsShape(names: seq<string>, n: nat, reuse: bool, cur0: map<string, Reader>,
                                      files: map<Path, File>, next0: nat)
    requires n <= |names|
    ensures Shaped(names, n, reuse, cur0, files, next0, Loads(names, n, reuse, cur0, files, next0))
    decreases n
  {
    if n > 0 {
      LoadsShape(names, n - 1, reuse, cur0, files, next0);
      var l := Loads(names, n - 1, reuse, cur0, files, next0);
      if l.err.None? {
        LoadStepShape(names, n, reuse, cur0, files, next0, l);
      }
    }
  }

  lemma LoadStepShape(names: seq<string>, n: nat, reuse: bool, cur0: map<string, Reader>,
                      files: map<Path, File>, next0: nat, l: Load)
    requires 0 < n <= |names| && l.err.None? && Shaped(names, n - 1, reuse, cur0, files, next0, l)
    ensures Shaped(names, n, reuse, cur0, files, next0, LoadStep(l, names[n - 1], reuse, files))
  {
    var name := names[n - 1];
    var l' := LoadStep(l, name, reuse, files);
    if reuse && name in l.cur {
      assert l'.tables == l.tables + [cur0[name]];
    } else if Table(name) in files && files[Table(name)].Data? {
      assert l'.tables == l.tables + [OpenReader(l.next, name, files[Table(name)].table)];
    }
  }

  /** The loop state after `n` names, as `LoadsShape` describes it. */
  predicate Shaped(names: seq<string>, n: nat, reuse: bool, cur0: map<string, Reader>,
                   files: map<Path, File>, next0: nat, l: Load)
    requires n <= |names|
  {
    next0 <= l.next
    && (forall k :: k in l.cur ==> k in cur0 && l.cur[k] == cur0[k])
    && (l.err.None? ==> |l.tables| == n)
    && (l.err.Some? ==> |l.tables| < n && StopsAt(names[|l.tables|], l, reuse, files))
    && (forall i :: 0 <= i < |l.tables| ==> Origin(l.tables[i], names[i], reuse, cur0, files, next0, l.next))
  }

  /** Why the loop stopped at `name`, and with which error. */
  predicate StopsAt(name: string, l: Load, reuse: bool, files: map<Path, File>)
    requires l.err.Some?
  {
    !(reuse && name in l.cur)
    && (Table(name) !in files ==> l.err.value == NotExist)
    && (Table(name) in files ==> !files[Table(name)].Data? && l.err.value == NotATable(name))
  }

  /** Where the reader for `name` comes from. */
  predicate Origin(r: Reader, name: string, reuse: bool, cur0: map<string, Reader>, files: map<Path, File>,
                   next0: nat, next: nat)
  {
    (reuse && name in cur0 && r == cur0[name])
    || (next0 <= r.handle < next && Table(name) in files && files[Table(name)].Data?
        && r == OpenReader(r.handle, name, files[Table(name)].table))
  }

  /** Without reuse, every table is opened anew. */
  lemma NoReuseOpensAll(names: seq<string>, cur0: map<string, Reader>, files: map<Path, File>, next0: nat)
    ensures var l := Loads(names, |names|, false, cur0, files, next0);
      forall i :: 0 <= i < |l.tables| ==> l.tables[i].handle >= next0
  {
    LoadsShape(names, |names|, false, cur0, files, next0);
  }

  // ---------------------------------------------------------------------
  // Open readers stay open

  /** `cur` holds distinct readers under distinct names. */
  predicate Injective(cur: map<string, Reader>)
  {
    forall a, b :: a in cur && b in cur && a != b ==> cur[a].handle != cur[b].handle
  }

  /** What the loop keeps: `cur` only shrinks, the readers gathered are
      distinct, handed out and not closed, and none of them is still in
      `cur`. */
  predicate LoadOk(l: Load, cur0: map<string, Reader>, closed: set<nat>, next0: nat)
  {
    next0 <= l.next
    && (forall k :: k in l.cur ==> k in cur0 && l.cur[k] == cur0[k])
    && AllOpen(l.tables, closed, l.next)
    && (forall i, k :: 0 <= i < |l.tables| && k in l.cur ==> l.tables[i].handle != l.cur[k].handle)
  }

  /** The `cur` of an open stack holds open, distinct readers. */
  lemma CurOfOpen(rs: seq<Reader>, closed: set<nat>, next: nat)
    requires AllOpen(rs, closed, next)
    ensures Injective(CurOf(rs))
    ensures forall k :: k in CurOf(rs) ==> CurOf(rs)[k].handle < next && CurOf(rs)[k].handle !in closed
  {
    CurOfReaders(rs);
    var cur := CurOf(rs);
    forall a, b | a in cur && b in cur && a != b
      ensures cur[a].handle != cur[b].handle
    {
      var i :| 0 <= i < |rs| && rs[i] == cur[a];
      var j :| 0 <= j < |rs| && rs[j] == cur[b];
      assert i != j;
    }
  }

  lemma {:induction false} LoadsOk(names: seq<string>, n: nat, reuse: bool, cur0: map<string, Reader>,
                                   files: map<Path, File>, closed: set<nat>, next0: nat)
    requires n <= |names|
    requires Injective(cur0) && forall k :: k in cur0 ==> cur0[k].handle < next0 && cur0[k].handle !in closed
    requires forall h :: h in closed ==> h < next0
    ensures LoadOk(Loads(names, n, reuse, cur0, files, next0), cur0, closed, next0)
    decreases n
  {
    if n > 0 {
      LoadsOk(names, n - 1, reuse, cur0, files, closed, next0);
      var l := Loads(names, n - 1, reuse, cur0, files, next0);
      if l.err.None? {
        LoadStepOk(l, names[n - 1], reuse, cur0, files, closed, next0);
      }
    }
  }

  lemma LoadStepOk(l: Load, name: string, reuse: bool, cur0: map<string, Reader>, files: map<Path, File>,
                   closed: set<nat>, next0: nat)
    requires LoadOk(l, cur0, closed, next0)
    requires Injective(cur0) && forall k :: k in cur0 ==> cur0[k].handle < next0 && cur0[k].handle !in closed
    requires forall h :: h in closed ==> h < next0
    ensures LoadOk(LoadStep(l, name, reuse, files), cur0, closed, next0)
  {
    var l' := LoadStep(l, name, reuse, files);
    if reuse && name in l.cur {
      var r := l.cur[name];
      assert l'.tables == l.tables + [r];
      forall i, k | 0 <= i < |l'.tables| && k in l'.cur
        ensures l'.tables[i].handle != l'.cur[k].handle
      {
        if i == |l.tables| {
          assert k != name && l'.cur[k] == cur0[k] && r == cur0[name];
        }
      }
    } else if Table(name) in files && files[Table(name)].Data? {
      assert l'.tables == l.tables + [OpenReader(l.next, name, files[Table(name)].table)];
    }
  }

  /** A successful reload leaves a stack of open, distinct readers, once
      the readers left in `cur` are closed. */
  lemma ReloadKeepsOpen(rs: seq<Reader>, names: seq<string>, reuse: bool, files: map<Path, File>,
                        closed: set<nat>, next0: nat)
    requires AllOpen(rs, closed, next0) && forall h :: h in closed ==> h < next0
    ensures var l := Loads(names, |names|, reuse, CurOf(rs), files, next0);
      l.err.None? ==>
        AllOpen(l.tables, closed + HandlesOf(l.cur), l.next)
        && forall h :: h in closed + HandlesOf(l.cur) ==> h < l.next
  {
    CurOfOpen(rs, closed, next0);
    LoadsOk(names, |names|, reuse, CurOf(rs), files, closed, next0);
  }

  /** A failed reload that closes only the readers it opened leaves the
      current stack open. */
  lemma FailedReloadKeepsOpen(rs: seq<Reader>, names: seq<string>, reuse: bool, files: map<Path, File>,
                              closed: set<nat>, next0: nat)
    requires AllOpen(rs, closed, next0) && forall h :: h in closed ==> h < next0
    ensures var l := Loads(names, |names|, reuse, CurOf(rs), files, next0);
      AllOpen(rs, closed + FreshHandles(l.tables, next0), l.next)
      && forall h :: h in closed + FreshHandles(l.tables, next0) ==> h < l.next
  {
    var l := Loads(names, |names|, reuse, CurOf(rs), files, next0);
    CurOfOpen(rs, closed, next0);
    LoadsOk(names, |names|, reuse, CurOf(rs), files, closed, next0);
  }
}
