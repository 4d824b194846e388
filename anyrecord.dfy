/** The `Record` interface of record.go: the four record kinds behind one
    type, the dispatch of `Type`, `Key`, `valType`, `IsTombstone`,
    `encode` and `decode`, and `newRecord`, which makes the empty receiver
    a block of a given type decodes into. */
module AnyRecords {
  import opened Bytes
  import opened VarInt
  import opened Keys
  import opened Records
  import opened LogRecords

  datatype Record =
    | Ref(ref: RefRecord)
    | Log(log: LogRecord)
    | Obj(obj: ObjRecord)
    | Index(index: IndexRecord)

  predicate IsBlockType(t: Byte)
  {
    t == BlockTypeRef || t == BlockTypeLog || t == BlockTypeObj || t == BlockTypeIndex
  }

  /** `Type()`: the block type tag of the record's kind. */
  function Type(r: Record): (t: Byte)
    ensures IsBlockType(t)
  {
    match r
    case Ref(_) => BlockTypeRef
    case Log(_) => BlockTypeLog
    case Obj(_) => BlockTypeObj
    case Index(_) => BlockTypeIndex
  }

  /** `Key()`: the ref name, the log key, the hash prefix or the index's
      last key. */
  function Key(r: Record): seq<Byte>
  {
    match r
    case Ref(x) => x.refName
    case Log(x) => LogKey(x)
    case Obj(x) => x.hashPrefix
    case Index(x) => x.lastKey
  }

  /** `valType()`: the three bits stored next to the key. */
  function ValType(r: Record): (t: Byte)
    ensures t < 8
  {
    match r
    case Ref(x) => RefValType(x)
    case Log(x) => LogValType(x)
    case Obj(x) => ObjValType(x)
    case Index(_) => 0
  }

  /** `IsTombstone()`. */
  predicate IsTombstone(r: Record)
  {
    match r
    case Ref(x) => RefIsTombstone(x)
    case Log(x) => LogIsTombstone(x)
    case Obj(_) => false
    case Index(_) => false
  }

  /** Obj and index records are never deletions; a ref or log record is one
      exactly when it carries no value. */
  lemma TombstoneKinds(r: Record)
    ensures r.Obj? || r.Index? ==> !IsTombstone(r)
    ensures r.Ref? ==> (IsTombstone(r) <==> |r.ref.value| == 0 && |r.ref.target| == 0)
    ensures r.Ref? ==> (IsTombstone(r) <==> ValType(r) == 0)
    ensures r.Log? ==> (IsTombstone(r) <==> r.log.oldHash.None? && r.log.newHash.None?)
  {
    if r.Ref? {
      RefValTypeCases(r.ref);
    }
  }

  /** What each `encode` asks of its receiver before it writes anything
      (a length that fits a varint, ids of the right length). */
  predicate Encodable(r: Record)
  {
    match r
    case Ref(x) => |x.target| < TWO63
    case Log(x) => LogEncodable(x)
    case Obj(x) => |x.offsets| < TWO63
    case Index(_) => true
  }

  /** The bytes `encode` writes when they fit. */
  function Payload(r: Record): seq<Byte>
    requires Encodable(r)
  {
    match r
    case Ref(x) => RefPayload(x)
    case Log(x) => LogPayload(x)
    case Obj(x) => ObjPayload(x)
    case Index(x) => Encoding(x.offset)
  }

  /** `encode(buf)` with `room` bytes left: every kind writes its whole
      payload when it fits and reports failure otherwise. */
  method Encode(r: Record, room: nat) returns (w: Option<seq<Byte>>)
    requires Encodable(r)
    ensures w == if |Payload(r)| <= room then Some(Payload(r)) else None
  {
    match r
    case Ref(x) =>
      RefEncodeFits(x, room);
      w := RefEncode(x, room);
    case Log(x) =>
      LogEncodeFits(x, room);
      w := LogEncode(x, room).bytes;
    case Obj(x) =>
      w := ObjEncode(x, room);
    case Index(x) =>
      AppendFromEmpty(room, Encoding(x.offset));
      w := IndexEncode(x, room);
  }

  /** `decode(buf, key, valType)` on a receiver of `r`'s kind: the decoders
      overwrite the whole receiver, so only its kind matters. */
  function Decode(r: Record, buf: seq<Byte>, key: seq<Byte>, valType: Byte): (d: Option<Read<Record>>)
    ensures d.Some? ==> d.value.n <= |buf| && Type(d.value.value) == Type(r)
  {
    match r
    case Ref(_) => (match RefDecode(buf, key, valType) case None => None case Some(x) => Some(Read(Ref(x.value), x.n)))
    case Log(_) => (match LogDecode(buf, key, valType) case None => None case Some(x) => Some(Read(Log(x.value), x.n)))
    case Obj(_) => (match ObjParse(buf, key, valType) case None => None case Some(x) => Some(Read(Obj(x.value), x.n)))
    case Index(_) => (match IndexDecode(buf, key) case None => None case Some(x) => Some(Read(Index(x.value), x.n)))
  }

  /** What a decoder can give back: the record itself, except that a log
      record comes back normalised and without its update index. */
  function Stored(r: Record): Record
    requires r.Log? ==> HashOk(r.log.oldHash) && HashOk(r.log.newHash)
  {
    match r
    case Log(x) => Log(LogNormalize(x).(updateIndex := 0))
    case _ => r
  }

  /** The records every kind's round trip covers. */
  predicate WellFormed(r: Record)
  {
    match r
    case Ref(x) => RefWellFormed(x)
    case Log(x) => LogEncodable(x) && x.refName != []
    case Obj(x) => |x.offsets| < TWO63
    case Index(_) => true
  }

  /** A record as decoders return it keeps its kind and its key. */
  lemma StoredKey(r: Record)
    requires r.Log? ==> HashOk(r.log.oldHash) && HashOk(r.log.newHash)
    ensures Type(Stored(r)) == Type(r) && Key(Stored(r)) == Key(r)
  {
  }

  /** Whatever the kind, decoding the payload under the record's own key
      and value type, into any receiver of that kind, gives back the stored
      record and consumes exactly the payload. */
  lemma RecordRoundTrip(r: Record, receiver: Record, rest: seq<Byte>)
    requires WellFormed(r) && Type(receiver) == Type(r)
    ensures Encodable(r)
    ensures Decode(receiver, Payload(r) + rest, Key(r), ValType(r)) == Some(Read(Stored(r), |Payload(r)|))
  {
    match r
    case Ref(x) => RefRoundTrip(x, rest);
    case Log(x) => LogRoundTrip(x, rest);
    case Obj(x) => ObjRoundTrip(x, rest);
    case Index(x) => RoundTrip(x.offset, rest);
  }

  /** `newRecord(typ, key)`: the empty receiver of that block type, with the
      key's fields set; nil for a type that is not a block type. A log key
      that is not well formed panics in the source: here it is excluded. */
  function NewRecord(typ: Byte, key: seq<Byte>): (r: Option<Record>)
    requires typ == BlockTypeLog && key != [] ==> LogDecodeKey(key).Some?
    ensures r.Some? <==> IsBlockType(typ)
    ensures r.Some? ==> Type(r.value) == typ
  {
    if typ == BlockTypeLog then
      if key == [] then Some(Log(EmptyLog()))
      else var k := LogDecodeKey(key).value; Some(Log(EmptyLog().(refName := k.refName, ts := k.ts)))
    else if typ == BlockTypeRef then Some(Ref(RefRecord(key, 0, [], [], [])))
    else if typ == BlockTypeObj then Some(Obj(ObjRecord(key, [])))
    else if typ == BlockTypeIndex then Some(Index(IndexRecord(key, 0)))
    else None
  }

  function EmptyLog(): LogRecord
  {
    LogRecord([], 0, 0, None, None, [], [], 0, 0, [])
  }

  /** A record made from a non-empty key has that key back, and is a
      deletion in the kinds that have deletions. */
  lemma NewRecordKey(typ: Byte, key: seq<Byte>)
    requires typ == BlockTypeLog && key != [] ==> LogDecodeKey(key).Some?
    requires IsBlockType(typ) && key != []
    ensures Key(NewRecord(typ, key).value) == key
    ensures typ != BlockTypeObj && typ != BlockTypeIndex ==> IsTombstone(NewRecord(typ, key).value)
  {
    if typ == BlockTypeLog {
      var k := LogDecodeKey(key).value;
      LogDecodeKeyInverse(key, EmptyLog().(refName := k.refName, ts := k.ts));
    }
  }
}
