/** The directory a stack lives in, as stack.go uses it through `os`: a
    map from path to content, with exclusive creation (`O_EXCL|O_CREATE`)
    that fails when the path exists, `ioutil.TempFile`, overwriting writes,
    `os.Rename` that replaces its destination, and `os.Remove`. A call
    that the operating system refuses is modelled by a `fail` argument:
    it reports failure and changes nothing. */
module FileSystems {
  import opened Bytes
  import opened Records
  import opened LogRecords

  /** The list file, its lock, a table, a table's lock (`<table>.lock`),
      and the temporary files `TempFile` makes. */
  datatype Path = ListFile | ListLock | Table(name: string) | TableLock(name: string) | Temp(id: nat)

  /** What a finished table holds: the update index range the writer was
      limited to, its size in bytes, and its records. */
  datatype TableData = TableData(minUpdateIndex: U64, maxUpdateIndex: U64, size: U64,
                                 refs: seq<RefRecord>, logs: seq<LogRecord>)

  /** A file is text (the list file, the locks), a table, or something
      that cannot be read. */
  datatype File = Text(text: string) | Data(table: TableData) | Garbled

  datatype CreateResult = Created | Exists | CreateFailed

  class FileSystem {
    var files: map<Path, File>
    /** The number `TempFile` uses next. */
    var nextTemp: nat

    /** Every temporary file has a number below `nextTemp`, so the next
        one is fresh. */
    predicate Valid()
      reads this
    {
      forall p :: p in files && p.Temp? ==> p.id < nextTemp
    }

    constructor (initial: map<Path, File>)
      requires forall p :: p in initial ==> !p.Temp?
      ensures Valid() && files == initial
    {
      files := initial;
      nextTemp := 0;
    }

    /** `os.OpenFile(p, O_EXCL|O_CREATE|O_WRONLY)`: an empty file, unless
        the path exists. */
    method Create(p: Path, fail: bool) returns (r: CreateResult)
      requires Valid() && !p.Temp?
      modifies this
      ensures Valid() && nextTemp == old(nextTemp)
      ensures r == (if p in old(files) then Exists else if fail then CreateFailed else Created)
      ensures files == if r == Created then old(files)[p := Text([])] else old(files)
    {
      if p in files {
        return Exists;
      }
      if fail {
        return CreateFailed;
      }
      files := files[p := Text([])];
      return Created;
    }

    /** `ioutil.TempFile`: a fresh, empty file. */
    method CreateTemp(fail: bool) returns (t: Option<Path>)
      requires Valid()
      modifies this
      ensures Valid()
      ensures fail ==> t.None? && files == old(files) && nextTemp == old(nextTemp)
      ensures !fail ==> t == Some(Temp(old(nextTemp))) && Temp(old(nextTemp)) !in old(files)
                        && files == old(files)[Temp(old(nextTemp)) := Text([])]
                        && nextTemp == old(nextTemp) + 1
    {
      if fail {
        return None;
      }
      var p := Temp(nextTemp);
      files := files[p := Text([])];
      nextTemp := nextTemp + 1;
      return Some(p);
    }

    /** Writing an open file: its content becomes `f`. */
    method Write(p: Path, f: File, fail: bool) returns (ok: bool)
      requires Valid()
      modifies this
      ensures Valid() && nextTemp == old(nextTemp)
      ensures ok == (p in old(files) && !fail)
      ensures files == if ok then old(files)[p := f] else old(files)
    {
      if p !in files || fail {
        return false;
      }
      files := files[p := f];
      return true;
    }

    /** `os.Rename(src, dst)`: the destination is replaced. */
    method Rename(src: Path, dst: Path, fail: bool) returns (ok: bool)
      requires Valid() && !dst.Temp?
      modifies this
      ensures Valid() && nextTemp == old(nextTemp)
      ensures ok == (src in old(files) && !fail)
      ensures files == if ok then (old(files) - {src})[dst := old(files)[src]] else old(files)
    {
      if src !in files || fail {
        return false;
      }
      files := (files - {src})[dst := files[src]];
      return true;
    }

    /** `os.Remove(p)`. */
    method Remove(p: Path, fail: bool) returns (ok: bool)
      requires Valid()
      modifies this
      ensures Valid() && nextTemp == old(nextTemp)
      ensures ok == (p in old(files) && !fail)
      ensures files == if ok then old(files) - {p} else old(files)
    {
      if p !in files || fail {
        return false;
      }
      files := files - {p};
      return true;
    }
  }
}
