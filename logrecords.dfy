/** Reflog records of record.go: the key that sorts the newest entry of a
    ref first, the normalisation `encode` applies to its receiver, and the
    payload, read back field by field. */
module LogRecords {
  import opened Bytes
  import opened VarInt
  import opened Keys
  import opened Records

  /** Go's `int16`. */
  type Int16 = x: int | -0x8000 <= x < 0x8000

  /** `LogRecord{RefName, TS, UpdateIndex, Old, New, Name, Email, Time,
      TZOffset, Message}`; `Old` and `New` may be nil. */
  datatype LogRecord = LogRecord(refName: seq<Byte>, ts: U64, updateIndex: U64,
                                 oldHash: Option<seq<Byte>>, newHash: Option<seq<Byte>>,
                                 name: seq<Byte>, email: seq<Byte>, time: U64, tzOffset: Int16,
                                 message: seq<Byte>)

  // ---------------------------------------------------------------------
  // Keys

  /** `revInt64`: the complement in 64 bits, so larger timestamps give
      smaller values. */
  function RevInt64(t: U64): (r: U64)
  {
    0xffff_ffff_ffff_ffff - t
  }

  lemma RevInt64Reverses(s: U64, t: U64)
    ensures RevInt64(RevInt64(t)) == t
    ensures s < t <==> RevInt64(t) < RevInt64(s)
  {
  }

  /** `LogRecord.Key`: the name, a 0 byte, then the reversed timestamp as
      8 big-endian bytes. */
  function LogKey(l: LogRecord): (k: seq<Byte>)
    ensures |k| == |l.refName| + 9
  {
    l.refName + [0] + BigEndian(RevInt64(l.ts), 8)
  }

  /** The fields `LogRecord.decodeKey` sets. */
  datatype LogKeyFields = LogKeyFields(refName: seq<Byte>, ts: U64)

  /** Eight big-endian bytes as a `uint64` (`binary.BigEndian.Uint64`). */
  function Uint64(b: seq<Byte>): (x: U64)
    requires |b| == 8
  {
    FromBigEndianBound(b);
    Pow256At8();
    FromBigEndian(b)
  }

  lemma Pow256At8()
    ensures Pow256(8) == TWO64
  {
    assert Pow256(2) == 0x1_0000;
    assert Pow256(4) == 0x1_0000_0000;
    assert Pow256(6) == 0x1_0000_0000_0000;
  }

  /** `LogRecord.decodeKey(key)`: the last 9 bytes are the separator and
      the reversed timestamp; everything before them is the name. */
  function LogDecodeKey(key: seq<Byte>): (r: Option<LogKeyFields>)
    ensures r.Some? <==> |key| >= 10 && key[|key| - 9] == 0
  {
    if |key| < 10 then None
    else
      var last := key[|key| - 9..];
      if last[0] != 0 then None
      else Some(LogKeyFields(key[..|key| - 9], RevInt64(Uint64(last[1..]))))
  }

  /** The key of a named entry gives back its name and timestamp; a key
      with an empty name is too short to be accepted. */
  lemma LogKeyRoundTrip(l: LogRecord)
    ensures LogDecodeKey(LogKey(l)) == if l.refName != [] then Some(LogKeyFields(l.refName, l.ts)) else None
  {
    if l.refName != [] {
      var e := BigEndian(RevInt64(l.ts), 8);
      KeySplit(l.refName, e, LogKey(l));
      BigEndianRoundTrip(RevInt64(l.ts), 8);
      Pow256At8();
    }
  }

  /** A name, the separator and eight bytes, taken apart from the end. */
  lemma KeySplit(name: seq<Byte>, e: seq<Byte>, k: seq<Byte>)
    requires |e| == 8 && k == name + [0] + e
    ensures |k| - 9 == |name| && k[|k| - 9] == 0
    ensures k[..|k| - 9] == name && k[|k| - 9..][1..] == e
  {
    assert k[|k| - 9..] == [0] + e;
  }

  /** Every accepted key is the key of the entry it decodes to. */
  lemma LogDecodeKeyInverse(key: seq<Byte>, l: LogRecord)
    requires LogDecodeKey(key) == Some(LogKeyFields(l.refName, l.ts))
    ensures LogKey(l) == key && l.refName != []
  {
    var b := key[|key| - 8..];
    assert key[|key| - 9..][1..] == b;
    BigEndianOfUint64(b);
    assert key == key[..|key| - 9] + [0] + b;
  }

  lemma {:induction false} BigEndianOfUint64(b: seq<Byte>)
    requires |b| == 8
    ensures BigEndian(RevInt64(RevInt64(Uint64(b))), 8) == b
  {
    BigEndianOfBytes(b);
  }

  /** Writing back what was read from `|b|` bytes reproduces them. */
  lemma {:induction false} BigEndianOfBytes(b: seq<Byte>)
    ensures BigEndian(FromBigEndian(b), |b|) == b
  {
    if b != [] {
      var init := b[..|b| - 1];
      var x := FromBigEndian(b);
      assert x == FromBigEndian(init) * 256 + b[|b| - 1];
      assert x / 256 == FromBigEndian(init);
      assert x % 256 == b[|b| - 1];
      BigEndianOfBytes(init);
      assert init + [b[|b| - 1]] == b;
    }
  }

  /** The entries of one ref sort newest first. */
  lemma LogKeyOrder(l1: LogRecord, l2: LogRecord)
    requires l1.refName == l2.refName && l1.ts < l2.ts
    ensures Less(LogKey(l2), LogKey(l1))
  {
    Pow256At8();
    BigEndianMonotone(RevInt64(l2.ts), RevInt64(l1.ts), 8);
    var p := l1.refName + [0];
    assert LogKey(l1) == p + BigEndian(RevInt64(l1.ts), 8);
    assert LogKey(l2) == p + BigEndian(RevInt64(l2.ts), 8);
    LessPrefix(p, BigEndian(RevInt64(l2.ts), 8), BigEndian(RevInt64(l1.ts), 8));
  }

  // ---------------------------------------------------------------------
  // Value type, tombstones and normalisation

  /** `LogRecord.valType`. */
  function LogValType(l: LogRecord): (t: Byte)
    ensures t == 1
  {
    1
  }

  /** `LogRecord.IsTombstone`: neither hash is set. */
  predicate LogIsTombstone(l: LogRecord)
  {
    l.newHash.None? && l.oldHash.None?
  }

  /** A hash `encode` accepts: absent, or of the full length. */
  predicate HashOk(h: Option<seq<Byte>>)
  {
    h.None? || |h.value| == HashSize
  }

  /** What `encode` demands of its receiver: other hash lengths make it
      panic, and a string longer than a Go slice cannot arise. */
  predicate LogEncodable(l: LogRecord)
  {
    HashOk(l.oldHash) && HashOk(l.newHash) && StringsFit(l)
  }

  predicate StringsFit(l: LogRecord)
  {
    |l.name| < TWO63 && |l.email| < TWO63 && |l.message| < TWO63
  }

  /** The zero object id `make([]byte, hashSize)`. */
  function ZeroHash(): (z: seq<Byte>)
    ensures |z| == HashSize && forall i :: 0 <= i < |z| ==> z[i] == 0
  {
    seq(HashSize, (_: int) => 0 as Byte)
  }

  /** A nil hash becomes the zero object id. */
  function OrZero(h: Option<seq<Byte>>): (r: seq<Byte>)
    requires HashOk(h)
    ensures |r| == HashSize
    ensures h.Some? ==> r == h.value
    ensures h.None? ==> r == ZeroHash()
  {
    if h.None? then ZeroHash() else h.value
  }

  /** The receiver after `encode`'s first lines: both hashes set, every
      other field as it was. */
  function LogNormalize(l: LogRecord): (r: LogRecord)
    requires HashOk(l.oldHash) && HashOk(l.newHash)
    ensures r.oldHash == Some(OrZero(l.oldHash)) && r.newHash == Some(OrZero(l.newHash))
    ensures r.(oldHash := l.oldHash, newHash := l.newHash) == l
  {
    l.(oldHash := Some(OrZero(l.oldHash)), newHash := Some(OrZero(l.newHash)))
  }

  /** Normalising is idempotent and leaves no tombstone. */
  lemma LogNormalizeIdempotent(l: LogRecord)
    requires HashOk(l.oldHash) && HashOk(l.newHash)
    ensures LogNormalize(LogNormalize(l)) == LogNormalize(l)
    ensures !LogIsTombstone(LogNormalize(l))
  {
  }

  // ---------------------------------------------------------------------
  // Encoding

  /** The bytes `uint16(l.TZOffset)` puts: two's complement in 16 bits. */
  function TzBytes(tz: Int16): (b: seq<Byte>)
    ensures |b| == 2
  {
    BigEndian(tz % 0x1_0000, 2)
  }

  /** `int16(binary.BigEndian.Uint16(b))`. */
  function Int16Of(b: seq<Byte>): (x: Int16)
    requires |b| == 2
  {
    var u := (b[0] as int) * 256 + (b[1] as int);
    if u >= 0x8000 then u - 0x1_0000 else u
  }

  lemma TzRoundTrip(tz: Int16)
    ensures Int16Of(TzBytes(tz)) == tz
  {
    var u := tz % 0x1_0000;
    var b := TzBytes(tz);
    assert b == BigEndian(u / 256, 1) + [u % 256];
    assert b[0] == (u / 256) % 256 && b[1] == u % 256;
  }

  /** The fields after the two object ids, in the order `encode` writes
      them and `decode` reads them. */
  datatype LogField = NameField | EmailField | TimeField | TzField | MessageField

  const LogFields: seq<LogField> := [NameField, EmailField, TimeField, TzField, MessageField]

  /** The bytes `encode` writes for one field. */
  function FieldBytes(l: LogRecord, f: LogField): seq<Byte>
    requires StringsFit(l)
  {
    match f
    case NameField => StringBytes(l.name)
    case EmailField => StringBytes(l.email)
    case TimeField => Encoding(l.time)
    case TzField => TzBytes(l.tzOffset)
    case MessageField => StringBytes(l.message)
  }

  /** The bytes of several fields, one after the other. */
  function FieldsBytes(l: LogRecord, fs: seq<LogField>): seq<Byte>
    requires StringsFit(l)
    decreases |fs|
  {
    if fs == [] then [] else FieldBytes(l, fs[0]) + FieldsBytes(l, fs[1..])
  }

  /** The bytes `LogRecord.encode` writes: old id, new id, name, email,
      time, time zone, message. */
  function LogPayload(l: LogRecord): seq<Byte>
    requires LogEncodable(l)
  {
    OrZero(l.oldHash) + OrZero(l.newHash) + StringBytes(l.name) + StringBytes(l.email)
    + Encoding(l.time) + TzBytes(l.tzOffset) + StringBytes(l.message)
  }

  /** What `LogRecord.encode` leaves behind: the normalised receiver, and
      the bytes when they fit. */
  datatype LogEncoded = LogEncoded(record: LogRecord, bytes: Option<seq<Byte>>)

  /** `LogRecord.encode` into `room` bytes, step by step. The receiver is
      normalised whether or not the payload fits. */
  function LogEncode(l: LogRecord, room: nat): (e: LogEncoded)
    requires LogEncodable(l)
  {
    var n := LogNormalize(l);
    var w := Append(Some([]), room, n.oldHash.value);
    var w := Append(w, room, n.newHash.value);
    var w := PutString(w, room, n.name);
    var w := PutString(w, room, n.email);
    var w := Append(w, room, Encoding(n.time));
    var w := Append(w, room, TzBytes(n.tzOffset));
    var w := PutString(w, room, n.message);
    LogEncoded(n, w)
  }

  /** The encoder normalises the receiver, and fits exactly when the whole
      payload does, writing the payload. */
  lemma LogEncodeFits(l: LogRecord, room: nat)
    requires LogEncodable(l)
    ensures LogEncode(l, room).record == LogNormalize(l)
    ensures LogEncode(l, room).bytes == if |LogPayload(l)| <= room then Some(LogPayload(l)) else None
  {
    var n := LogNormalize(l);
    var p1, p2 := OrZero(l.oldHash), OrZero(l.newHash);
    var p3, p4 := StringBytes(l.name), StringBytes(l.email);
    var p5, p6, p7 := Encoding(l.time), TzBytes(l.tzOffset), StringBytes(l.message);
    var w0 := Some([]);
    var w2 := Append(Append(w0, room, p1), room, p2);
    PutStringIsAppend(w2, room, l.name);
    var w3 := Append(w2, room, p3);
    PutStringIsAppend(w3, room, l.email);
    var w4 := Append(w3, room, p4);
    var w6 := Append(Append(w4, room, p5), room, p6);
    PutStringIsAppend(w6, room, l.message);
    AppendTwice(w0, room, p1, p2);
    AppendTwice(w0, room, p1 + p2, p3);
    AppendTwice(w0, room, p1 + p2 + p3, p4);
    AppendTwice(w0, room, p1 + p2 + p3 + p4, p5);
    AppendTwice(w0, room, p1 + p2 + p3 + p4 + p5, p6);
    AppendTwice(w0, room, p1 + p2 + p3 + p4 + p5 + p6, p7);
    AppendFromEmpty(room, LogPayload(l));
  }

  /** What `encode` writes after the two ids is the bytes of the field list. */
  lemma LogFieldsBytes(l: LogRecord)
    requires StringsFit(l)
    ensures FieldsBytes(l, LogFields)
            == StringBytes(l.name) + (StringBytes(l.email) + (Encoding(l.time) + (TzBytes(l.tzOffset) + StringBytes(l.message))))
  {
  }

  /** The bytes of a field list are those of its first field, then those
      of the rest. */
  lemma FieldsBytesCons(l: LogRecord, fs: seq<LogField>, rest: seq<Byte>)
    requires StringsFit(l) && fs != []
    ensures FieldsBytes(l, fs) == FieldBytes(l, fs[0]) + FieldsBytes(l, fs[1..])
    ensures FieldsBytes(l, fs) + rest == FieldBytes(l, fs[0]) + (FieldsBytes(l, fs[1..]) + rest)
    ensures (FieldsBytes(l, fs) + rest)[|FieldBytes(l, fs[0])|..] == FieldsBytes(l, fs[1..]) + rest
  {
    var fb, tb := FieldBytes(l, fs[0]), FieldsBytes(l, fs[1..]);
    assert fb + tb + rest == fb + (tb + rest);
    assert (fb + (tb + rest))[|fb|..] == tb + rest;
  }

  // ---------------------------------------------------------------------
  // Decoding

  /** A field reader's result, moved `k` bytes further into the buffer. */
  function Shift(t: Option<Read<LogRecord>>, k: nat): (r: Option<Read<LogRecord>>)
    ensures r.Some? <==> t.Some?
    ensures r.Some? ==> r.value == Read(t.value.value, t.value.n + k)
  {
    match t
    case None => None
    case Some(x) => Some(Read(x.value, x.n + k))
  }

  /** One step of `LogRecord.decode` after the object ids: the field read
      into the receiver, and the bytes it took. */
  function ReadField(b: seq<Byte>, l: LogRecord, f: LogField): (r: Option<Read<LogRecord>>)
    ensures r.Some? ==> 0 < r.value.n <= |b|
  {
    match f
    case NameField =>
      (match DecodeString(b)
       case None => None
       case Some(x) => Some(Read(l.(name := x.value), x.n)))
    case EmailField =>
      (match DecodeString(b)
       case None => None
       case Some(x) => Some(Read(l.(email := x.value), x.n)))
    case TimeField =>
      var p := Parse(b);
      if p.n <= 0 then None else Some(Read(l.(time := p.val), p.n))
    case TzField =>
      if |b| < 2 then None else Some(Read(l.(tzOffset := Int16Of(b[..2])), 2))
    case MessageField =>
      (match DecodeString(b)
       case None => None
       case Some(x) => Some(Read(l.(message := x.value), x.n)))
  }

  /** Several steps in a row; the first that fails fails the decode. */
  function ReadFields(b: seq<Byte>, l: LogRecord, fs: seq<LogField>): (r: Option<Read<LogRecord>>)
    ensures r.Some? ==> r.value.n <= |b|
    decreases |b|
  {
    if fs == [] then Some(Read(l, 0))
    else
      match ReadField(b, l, fs[0])
      case None => None
      case Some(x) => Shift(ReadFields(b[x.n..], x.value, fs[1..]), x.n)
  }

  /** The receiver `decode` starts from: cleared, with the key fields set. */
  function KeyOnly(k: LogKeyFields): (l: LogRecord)
    ensures l.refName == k.refName && l.ts == k.ts && LogIsTombstone(l)
  {
    LogRecord(k.refName, k.ts, 0, None, None, [], [], 0, 0, [])
  }

  /** `LogRecord.decode(buf, key, valType)`: fails on a malformed key; a
      value type of 0 reads nothing; otherwise the two ids and then the
      other fields in the order `encode` wrote them. */
  function LogDecode(buf: seq<Byte>, key: seq<Byte>, valType: Byte): (r: Option<Read<LogRecord>>)
    ensures r.Some? ==> r.value.n <= |buf|
    ensures LogDecodeKey(key).None? ==> r.None?
  {
    match LogDecodeKey(key)
    case None => None
    case Some(k) =>
      if valType == 0 then Some(Read(KeyOnly(k), 0)) else LogDecodeBody(buf, k)
  }

  /** The payload after the key: the two object ids, then the fields. */
  function LogDecodeBody(buf: seq<Byte>, k: LogKeyFields): (r: Option<Read<LogRecord>>)
    ensures r.Some? ==> r.value.n <= |buf|
  {
    if |buf| < 2 * HashSize then None
    else Shift(ReadFields(buf[2 * HashSize..], WithHashes(k, buf[..HashSize], buf[HashSize..2 * HashSize]), LogFields),
               2 * HashSize)
  }

  /** The cleared receiver with the key fields and both object ids set. */
  function WithHashes(k: LogKeyFields, h1: seq<Byte>, h2: seq<Byte>): (l: LogRecord)
    ensures l.refName == k.refName && l.ts == k.ts && l.oldHash == Some(h1) && l.newHash == Some(h2)
  {
    KeyOnly(k).(oldHash := Some(h1), newHash := Some(h2))
  }

  /** With value type 0 the decoder reads no bytes and yields the deletion
      entry of the key. */
  lemma LogDecodeDeletion(l: LogRecord, buf: seq<Byte>)
    requires l.refName != []
    ensures LogDecode(buf, LogKey(l), 0) == Some(Read(KeyOnly(LogKeyFields(l.refName, l.ts)), 0))
    ensures LogIsTombstone(LogDecode(buf, LogKey(l), 0).value.value)
  {
    LogKeyRoundTrip(l);
  }

  /** `l0` with field `f` taken from `l`. */
  function CopyField(l0: LogRecord, l: LogRecord, f: LogField): LogRecord
  {
    match f
    case NameField => l0.(name := l.name)
    case EmailField => l0.(email := l.email)
    case TimeField => l0.(time := l.time)
    case TzField => l0.(tzOffset := l.tzOffset)
    case MessageField => l0.(message := l.message)
  }

  function CopyFields(l0: LogRecord, l: LogRecord, fs: seq<LogField>): LogRecord
    decreases |fs|
  {
    if fs == [] then l0 else CopyFields(CopyField(l0, l, fs[0]), l, fs[1..])
  }

  /** A string `s` in front of `tail` reads back as `s`. */
  lemma StringThen(s: seq<Byte>, tail: seq<Byte>, b: seq<Byte>)
    requires |s| < TWO63 && b == StringBytes(s) + tail
    ensures DecodeString(b) == Some(Read(s, |StringBytes(s)|))
  {
    StringRoundTrip(s, tail);
  }

  /** Each field reads back what `encode` wrote for it, whatever follows. */
  lemma FieldRoundTrip(l: LogRecord, l0: LogRecord, f: LogField, rest: seq<Byte>)
    requires StringsFit(l)
    ensures ReadField(FieldBytes(l, f) + rest, l0, f) == Some(Read(CopyField(l0, l, f), |FieldBytes(l, f)|))
  {
    var b := FieldBytes(l, f) + rest;
    match f
    case NameField => StringThen(l.name, rest, b);
    case EmailField => StringThen(l.email, rest, b);
    case TimeField => RoundTrip(l.time, rest);
    case TzField =>
      assert b[..2] == TzBytes(l.tzOffset);
      TzRoundTrip(l.tzOffset);
    case MessageField => StringThen(l.message, rest, b);
  }

  /** One field read, then the rest of the list. */
  lemma ReadFieldsCons(b: seq<Byte>, l0: LogRecord, fs: seq<LogField>, x: Read<LogRecord>, tail: seq<Byte>,
                       y: Read<LogRecord>, v: LogRecord, n: nat)
    requires fs != [] && ReadField(b, l0, fs[0]) == Some(x) && b[x.n..] == tail
    requires ReadFields(tail, x.value, fs[1..]) == Some(y) && v == y.value && n == y.n + x.n
    ensures ReadFields(b, l0, fs) == Some(Read(v, n))
  {
  }

  lemma CopyFieldsCons(l0: LogRecord, l: LogRecord, fs: seq<LogField>)
    requires fs != []
    ensures CopyFields(l0, l, fs) == CopyFields(CopyField(l0, l, fs[0]), l, fs[1..])
  {
  }

  /** The fields read back what `encode` wrote for them, whatever follows. */
  lemma {:induction false} FieldsRoundTrip(l: LogRecord, l0: LogRecord, fs: seq<LogField>, rest: seq<Byte>)
    requires StringsFit(l)
    ensures ReadFields(FieldsBytes(l, fs) + rest, l0, fs) == Some(Read(CopyFields(l0, l, fs), |FieldsBytes(l, fs)|))
    decreases |fs|
  {
    if fs == [] {
      assert FieldsBytes(l, fs) + rest == rest;
    } else {
      var f := fs[0];
      var l1 := CopyField(l0, l, f);
      var hb, tb := FieldBytes(l, f), FieldsBytes(l, fs[1..]);
      FieldsBytesCons(l, fs, rest);
      FieldRoundTrip(l, l0, f, tb + rest);
      FieldsRoundTrip(l, l1, fs[1..], rest);
      CopyFieldsCons(l0, l, fs);
      ReadFieldsCons(FieldsBytes(l, fs) + rest, l0, fs, Read(l1, |hb|), tb + rest,
                     Read(CopyFields(l1, l, fs[1..]), |tb|), CopyFields(l0, l, fs), |FieldsBytes(l, fs)|);
    }
  }

  /** Copying all five fields. */
  lemma CopyLogFields(l0: LogRecord, l: LogRecord)
    ensures CopyFields(l0, l, LogFields)
            == l0.(name := l.name, email := l.email, time := l.time, tzOffset := l.tzOffset, message := l.message)
  {
    var fs := LogFields;
    assert fs[1..][1..][1..][1..][1..] == [];
    var l1 := l0.(name := l.name);
    var l2 := l1.(email := l.email);
    var l3 := l2.(time := l.time);
    var l4 := l3.(tzOffset := l.tzOffset);
    assert CopyFields(l4, l, fs[1..][1..][1..][1..]) == l4.(message := l.message);
    assert CopyFields(l3, l, fs[1..][1..][1..]) == l4.(message := l.message);
    assert CopyFields(l2, l, fs[1..][1..]) == l4.(message := l.message);
    assert CopyFields(l1, l, fs[1..]) == l4.(message := l.message);
  }

  /** The fields after the ids read back in full, whatever follows. */
  lemma LogFieldsRoundTrip(l: LogRecord, l0: LogRecord, t: seq<Byte>, rest: seq<Byte>)
    requires StringsFit(l)
    requires t == StringBytes(l.name) + (StringBytes(l.email) + (Encoding(l.time) + (TzBytes(l.tzOffset) + StringBytes(l.message))))
    ensures ReadFields(t + rest, l0, LogFields)
            == Some(Read(l0.(name := l.name, email := l.email, time := l.time, tzOffset := l.tzOffset, message := l.message), |t|))
  {
    LogFieldsBytes(l);
    FieldsRoundTrip(l, l0, LogFields, rest);
    CopyLogFields(l0, l);
  }

  /** Decoding what `encode` wrote, under the record's key and value type,
      gives back the normalised record with an update index of 0 (the
      index lives in the table, not in the payload) and consumes exactly
      the bytes written, whatever follows. */
  lemma LogRoundTrip(l: LogRecord, rest: seq<Byte>)
    requires LogEncodable(l) && l.refName != []
    ensures LogDecode(LogPayload(l) + rest, LogKey(l), LogValType(l))
            == Some(Read(LogNormalize(l).(updateIndex := 0), |LogPayload(l)|))
  {
    var k := LogKeyFields(l.refName, l.ts);
    var h1, h2 := OrZero(l.oldHash), OrZero(l.newHash);
    var t := StringBytes(l.name) + (StringBytes(l.email) + (Encoding(l.time) + (TzBytes(l.tzOffset) + StringBytes(l.message))));
    var l0 := WithHashes(k, h1, h2);
    var buf := LogPayload(l) + rest;
    LogKeyRoundTrip(l);
    LogPayloadShape(l);
    HashesThen(h1, h2, t, rest, buf);
    LogFieldsRoundTrip(l, l0, t, rest);
    LogDecodedFields(l, l0);
    LogDecodeAt(LogPayload(l) + rest, LogKey(l), k, LogValType(l), h1, h2, t + rest,
                LogNormalize(l).(updateIndex := 0), |t|, |LogPayload(l)|);
  }

  /** The payload regrouped as the two ids, then the fields. */
  lemma LogPayloadShape(l: LogRecord)
    requires LogEncodable(l)
    ensures LogPayload(l)
            == OrZero(l.oldHash) + OrZero(l.newHash)
               + (StringBytes(l.name) + (StringBytes(l.email) + (Encoding(l.time) + (TzBytes(l.tzOffset) + StringBytes(l.message)))))
  {
  }

  /** Two ids of `HashSize` bytes, then `t`, then `rest`, sliced the way
      the decoder slices its buffer. */
  lemma HashesThen(h1: seq<Byte>, h2: seq<Byte>, t: seq<Byte>, rest: seq<Byte>, buf: seq<Byte>)
    requires |h1| == HashSize && |h2| == HashSize && buf == h1 + h2 + t + rest
    ensures |buf| >= 2 * HashSize && buf[..HashSize] == h1 && buf[HashSize..2 * HashSize] == h2
    ensures buf[2 * HashSize..] == t + rest
  {
    assert buf == h1 + (h2 + (t + rest));
  }

  /** `decode` with a value type other than 0 reads the two object ids and
      then the fields. */
  lemma LogDecodeAt(buf: seq<Byte>, key: seq<Byte>, k: LogKeyFields, valType: Byte, h1: seq<Byte>, h2: seq<Byte>,
                    tail: seq<Byte>, l: LogRecord, m: nat, n: nat)
    requires LogDecodeKey(key) == Some(k) && valType != 0
    requires |buf| >= 2 * HashSize && buf[..HashSize] == h1 && buf[HashSize..2 * HashSize] == h2
    requires buf[2 * HashSize..] == tail
    requires ReadFields(tail, WithHashes(k, h1, h2), LogFields) == Some(Read(l, m)) && n == m + 2 * HashSize
    ensures LogDecode(buf, key, valType) == Some(Read(l, n))
  {
    assert LogDecodeBody(buf, k) == Some(Read(l, n));
  }

  lemma LogDecodedFields(l: LogRecord, l0: LogRecord)
    requires HashOk(l.oldHash) && HashOk(l.newHash)
    requires l0 == WithHashes(LogKeyFields(l.refName, l.ts), OrZero(l.oldHash), OrZero(l.newHash))
    ensures l0.(name := l.name, email := l.email, time := l.time, tzOffset := l.tzOffset, message := l.message)
            == LogNormalize(l).(updateIndex := 0)
  {
  }

  // ---------------------------------------------------------------------
  // `decode` as written

  /** The named results `n` and `ok` of `LogRecord.decode`, and its
      receiver. */
  datatype LogDecodedAsWritten = LogDecodedAsWritten(n: int, ok: bool, rec: LogRecord)

  /** `LogRecord.decode` as written. Its results are named, and `ok` is
      already true once the email has been read, so the bare returns after
      a bad time varint (`n` then -1) and with fewer than two time-zone
      bytes left (`n` then the length of the time varint) report success.
      Varints and strings are read as `Parse` and `DecodeString` read
      them. */
  function LogDecodeAsWritten(buf: seq<Byte>, key: seq<Byte>, valType: Byte): (r: LogDecodedAsWritten)
    ensures LogDecodeKey(key).None? ==> !r.ok
    ensures r.ok ==> r.n <= |buf|
  {
    var cleared := LogRecord([], 0, 0, None, None, [], [], 0, 0, []);
    match LogDecodeKey(key)
    case None =>
      LogDecodedAsWritten(0, false, if |key| >= 10 then cleared.(refName := key[..|key| - 9]) else cleared)
    case Some(k) =>
      if valType == 0 then LogDecodedAsWritten(0, true, KeyOnly(k))
      else if |buf| < 2 * HashSize then LogDecodedAsWritten(0, false, KeyOnly(k))
      else
        FieldsAsWritten(buf[2 * HashSize..], WithHashes(k, buf[..HashSize], buf[HashSize..2 * HashSize]), 2 * HashSize)
  }

  /** `decode` as written after the object ids, with `base` bytes of the
      buffer already read: the name and the email, then the rest. */
  function FieldsAsWritten(b1: seq<Byte>, l1: LogRecord, base: nat): (r: LogDecodedAsWritten)
    ensures r.ok ==> r.n <= base + |b1|
  {
    match DecodeString(b1)
    case None => LogDecodedAsWritten(0, false, l1)
    case Some(nm) =>
      var l2 := l1.(name := nm.value);
      var b2 := b1[nm.n..];
      match DecodeString(b2)
      case None => LogDecodedAsWritten(0, false, l2)
      case Some(em) =>
        var b3 := b2[em.n..];
        TailAsWritten(b3, l2.(email := em.value), base + |b1| - |b3|)
  }

  /** The rest of `decode` as written, from the time varint on, with
      `base` bytes of the buffer already read. */
  function TailAsWritten(b3: seq<Byte>, l3: LogRecord, base: nat): (r: LogDecodedAsWritten)
    ensures r.ok ==> r.n <= base + |b3|
  {
    var t := Parse(b3);
    var l4 := l3.(time := t.val);
    if t.n <= 0 then LogDecodedAsWritten(t.n, true, l4)
    else
      var b4 := b3[t.n..];
      if |b4| < 2 then LogDecodedAsWritten(t.n, true, l4)
      else
        var l5 := l4.(tzOffset := Int16Of(b4[..2]));
        var b5 := b4[2..];
        match DecodeString(b5)
        case None => LogDecodedAsWritten(0, false, l5)
        case Some(ms) => LogDecodedAsWritten(base + |b3| - |b5[ms.n..]|, true, l5.(message := ms.value))
  }

  /** From the time varint on: where the corrected field reads succeed the
      two agree; where only they fail, the length reported as written is
      no more than the bytes left, and there is no message. */
  lemma TailAsWrittenAgrees(b3: seq<Byte>, l3: LogRecord, base: nat)
    ensures var r := TailAsWritten(b3, l3, base);
      var m := ReadFields(b3, l3, LogFields[2..]);
      && (m.Some? ==> r == LogDecodedAsWritten(base + m.value.n, true, m.value.value))
      && (!r.ok ==> m.None?)
      && (r.ok && m.None? ==> r.n <= |b3| && r.rec.message == l3.message)
  {
    var fs := LogFields[2..];
    var t := Parse(b3);
    if t.n > 0 {
      var l4 := l3.(time := t.val);
      var b4 := b3[t.n..];
      assert ReadFields(b3, l3, fs) == Shift(ReadFields(b4, l4, fs[1..]), t.n);
      if |b4| >= 2 {
        var l5 := l4.(tzOffset := Int16Of(b4[..2]));
        var b5 := b4[2..];
        assert ReadFields(b4, l4, fs[1..]) == Shift(ReadFields(b5, l5, fs[2..]), 2);
        match DecodeString(b5)
        case None =>
        case Some(ms) =>
          assert ReadFields(b5, l5, fs[2..]) == Shift(ReadFields(b5[ms.n..], l5.(message := ms.value), fs[3..]), ms.n);
      }
    }
  }

  /** After the object ids: where the corrected field reads succeed the
      two agree; where only they fail, the length reported as written is
      short of the two strings read, and the message is untouched. */
  lemma FieldsAsWrittenAgrees(b1: seq<Byte>, l1: LogRecord, base: nat)
    ensures var r := FieldsAsWritten(b1, l1, base);
      var m := ReadFields(b1, l1, LogFields);
      && (m.Some? ==> r == LogDecodedAsWritten(base + m.value.n, true, m.value.value))
      && (!r.ok ==> m.None?)
      && (r.ok && m.None? ==> r.n <= |b1| - 2 && r.rec.message == l1.message)
  {
    var fs := LogFields;
    match DecodeString(b1)
    case None =>
    case Some(nm) =>
      var l2 := l1.(name := nm.value);
      var b2 := b1[nm.n..];
      assert ReadFields(b1, l1, fs) == Shift(ReadFields(b2, l2, fs[1..]), nm.n);
      match DecodeString(b2)
      case None =>
      case Some(em) =>
        var b3 := b2[em.n..];
        assert ReadFields(b2, l2, fs[1..]) == Shift(ReadFields(b3, l2.(email := em.value), fs[2..]), em.n);
        assert fs[1..][1..] == fs[2..];
        TailAsWrittenAgrees(b3, l2.(email := em.value), base + |b1| - |b3|);
  }

  /** Where the corrected decoder succeeds, `decode` as written returns the
      same record and length; where `decode` as written reports failure,
      so does the corrected decoder; and where only the corrected decoder
      fails, `decode` as written reports success with a length short of
      the two ids and two strings it has read, and no message. */
  lemma LogDecodeAsWrittenAgrees(buf: seq<Byte>, key: seq<Byte>, valType: Byte)
    ensures var r := LogDecodeAsWritten(buf, key, valType);
      var m := LogDecode(buf, key, valType);
      && (m.Some? ==> r == LogDecodedAsWritten(m.value.n, true, m.value.value))
      && (!r.ok ==> m.None?)
      && (r.ok && m.None? ==> r.n <= |buf| - 2 * HashSize - 2 && r.rec.message == [])
  {
    match LogDecodeKey(key)
    case None =>
    case Some(k) =>
      if valType != 0 && |buf| >= 2 * HashSize {
        FieldsAsWrittenAgrees(buf[2 * HashSize..], WithHashes(k, buf[..HashSize], buf[HashSize..2 * HashSize]), 2 * HashSize);
      }
  }

  /** A key that decodes: the name "a", then the separator and a reversed
      timestamp. */
  const SampleLogKey: seq<Byte> := [0x61, 0, 0, 0, 0, 0, 0, 0, 0, 0]

  /** Two zero ids, an empty name and an empty email, and nothing where the
      time varint should be: as written `decode` reports `(-1, true)`. */
  lemma TruncatedTimeReportsOk()
    ensures var buf := ZeroHash() + ZeroHash() + [0, 0];
      && LogDecode(buf, SampleLogKey, 1).None?
      && LogDecodeAsWritten(buf, SampleLogKey, 1).ok
      && LogDecodeAsWritten(buf, SampleLogKey, 1).n == -1
  {
    var buf := ZeroHash() + ZeroHash() + [0, 0];
    assert LogDecodeKey(SampleLogKey).Some?;
    assert buf[2 * HashSize..] == [0, 0];
    EmptyStrings();
    LogDecodeAsWrittenAgrees(buf, SampleLogKey, 1);
  }

  /** The same with the time 5 and a single time-zone byte: as written
      `decode` reports `(1, true)`, the time set and no zone or message. */
  lemma TruncatedTzReportsOk()
    ensures var buf := ZeroHash() + ZeroHash() + [0, 0, 5, 7];
      var r := LogDecodeAsWritten(buf, SampleLogKey, 1);
      && LogDecode(buf, SampleLogKey, 1).None?
      && r.ok && r.n == 1 && r.rec.time == 5 && r.rec.tzOffset == 0 && r.rec.message == []
  {
    var buf := ZeroHash() + ZeroHash() + [0, 0, 5, 7];
    var k := LogDecodeKey(SampleLogKey).value;
    var l1 := WithHashes(k, buf[..HashSize], buf[HashSize..2 * HashSize]);
    assert buf[2 * HashSize..] == [0, 0, 5, 7];
    assert LogDecodeAsWritten(buf, SampleLogKey, 1) == FieldsAsWritten([0, 0, 5, 7], l1, 2 * HashSize);
    assert LogDecode(buf, SampleLogKey, 1) == Shift(ReadFields([0, 0, 5, 7], l1, LogFields), 2 * HashSize);
    TwoEmptyStringsThenTime(l1, 2 * HashSize);
  }

  /** Two empty strings, the time 5 and one byte: the fields fail, yet as
      written the call reports the one byte of the time varint. */
  lemma TwoEmptyStringsThenTime(l1: LogRecord, base: nat)
    ensures ReadFields([0, 0, 5, 7], l1, LogFields) == None
    ensures FieldsAsWritten([0, 0, 5, 7], l1, base) == LogDecodedAsWritten(1, true, l1.(name := [], email := [], time := 5))
  {
    EmptyStrings();
    var l3 := l1.(name := [], email := []);
    assert [0, 0, 5, 7][1..] == [0, 5, 7] && [0, 5, 7][1..] == [5, 7];
    assert FieldsAsWritten([0, 0, 5, 7], l1, base) == TailAsWritten([5, 7], l3, base + 2);
    TimeThenOneByte(l3, base + 2);
    assert ReadFields([0, 5, 7], l1.(name := []), LogFields[1..]) == Shift(ReadFields([5, 7], l3, LogFields[2..]), 1);
  }

  /** The time 5 and a single zone byte. */
  lemma TimeThenOneByte(l3: LogRecord, base: nat)
    ensures ReadFields([5, 7], l3, LogFields[2..]) == None
    ensures TailAsWritten([5, 7], l3, base) == LogDecodedAsWritten(1, true, l3.(time := 5))
  {
    assert Parse([5, 7]) == VarIntResult(5, 1);
    assert [5, 7][1..] == [7 as Byte];
    assert ReadFields([7], l3.(time := 5), LogFields[3..]) == None;
  }

  /** The one-byte varint 0 decodes to the empty string. */
  lemma EmptyStrings()
    ensures DecodeString([0, 0]) == Some(Read([], 1))
    ensures DecodeString([0]) == Some(Read([], 1))
    ensures DecodeString([0, 5, 7]) == Some(Read([], 1))
    ensures DecodeString([0, 0, 5, 7]) == Some(Read([], 1))
    ensures Parse([]) == Failed
  {
    assert Parse([0, 0]) == VarIntResult(0, 1);
    assert Parse([0]) == VarIntResult(0, 1);
    assert Parse([0, 5, 7]) == VarIntResult(0, 1);
    assert Parse([0, 0, 5, 7]) == VarIntResult(0, 1);
  }
}
