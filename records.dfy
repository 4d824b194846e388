/** The record payloads of record.go: ref, obj, index and log records,
    their value types, tombstone predicates, keys, and the payload encoders
    and decoders. An encoder writes into a buffer of `room` bytes and
    reports `(n, fits)`; here it yields `Some(bytes)` exactly when Go
    returns `fits`, and the bytes it wrote. A decoder overwrites its
    receiver and reports `(n, ok)`; here it yields the new receiver and `n`
    exactly when Go returns `ok`. */
module Records {
  import opened Bytes
  import opened VarInt
  import opened Keys

  /** Length of an object id (SHA-1). */
  const HashSize: nat := 20

  /** Block type tags. */
  const BlockTypeRef: Byte := 0x72    // 'r'
  const BlockTypeLog: Byte := 0x67    // 'g'
  const BlockTypeObj: Byte := 0x6f    // 'o'
  const BlockTypeIndex: Byte := 0x69  // 'i'

  // ---------------------------------------------------------------------
  // Writing into a bounded buffer

  /** One step of an encoder: `piece` is copied after what was written so
      far if it fits, otherwise the encoder returns `(0, false)`. Both
      `putVarInt` and `if len(buf) < len(x) { return }; copy(buf, x)` are
      this step. */
  function Append(w: Option<seq<Byte>>, room: nat, piece: seq<Byte>): (r: Option<seq<Byte>>)
    ensures r.Some? ==> |r.value| <= room
  {
    if w.None? || |w.value| + |piece| > room then None else Some(w.value + piece)
  }

  /** The bytes of `encodeString`: the varint length, then the string. */
  function StringBytes(s: seq<Byte>): (b: seq<Byte>)
    requires |s| < TWO63
    ensures |b| == |Encoding(|s|)| + |s|
  {
    Encoding(|s|) + s
  }

  /** `encodeString(buf, val)` as a step after `w`. */
  function PutString(w: Option<seq<Byte>>, room: nat, s: seq<Byte>): Option<seq<Byte>>
    requires |s| < TWO63
  {
    Append(Append(w, room, Encoding(|s|)), room, s)
  }

  lemma PutStringIsAppend(w: Option<seq<Byte>>, room: nat, s: seq<Byte>)
    requires |s| < TWO63
    ensures PutString(w, room, s) == Append(w, room, StringBytes(s))
  {
    AppendTwice(w, room, Encoding(|s|), s);
  }

  /** Two steps in a row fail or succeed together as one step copying
      both pieces. */
  lemma AppendTwice(w: Option<seq<Byte>>, room: nat, a: seq<Byte>, b: seq<Byte>)
    ensures Append(Append(w, room, a), room, b) == Append(w, room, a + b)
  {
    if w.Some? && |w.value| + |a| <= room {
      assert w.value + a + b == w.value + (a + b);
    }
  }

  /** A step that copies nothing changes nothing. */
  lemma AppendEmpty(w: Option<seq<Byte>>, room: nat)
    requires w.Some? ==> |w.value| <= room
    ensures Append(w, room, []) == w
  {
    if w.Some? {
      assert w.value + [] == w.value;
    }
  }

  /** Go skips the copy of an empty field; that is the step copying
      nothing. */
  lemma SkipEmpty(w: Option<seq<Byte>>, room: nat, p: seq<Byte>)
    requires w.Some? ==> |w.value| <= room
    ensures (if |p| > 0 then Append(w, room, p) else w) == Append(w, room, p)
  {
    if |p| == 0 {
      assert p == [];
      AppendEmpty(w, room);
    }
  }

  lemma SkipEmptyString(w: Option<seq<Byte>>, room: nat, s: seq<Byte>)
    requires w.Some? ==> |w.value| <= room
    requires |s| < TWO63
    ensures (if |s| > 0 then PutString(w, room, s) else w)
            == Append(w, room, if |s| > 0 then StringBytes(s) else [])
  {
    if |s| > 0 {
      PutStringIsAppend(w, room, s);
    } else {
      AppendEmpty(w, room);
    }
  }

  /** Starting from an empty buffer, one step fits exactly when its piece
      does. */
  lemma AppendFromEmpty(room: nat, p: seq<Byte>)
    ensures Append(Some([]), room, p) == if |p| <= room then Some(p) else None
  {
    assert [] + p == p;
  }

  // ---------------------------------------------------------------------
  // Reading from a buffer

  /** What a value decoder yields: the value and the bytes it consumed. */
  datatype Read<T> = Read(value: T, n: nat)

  /** `decodeString(buf)`: a varint length, then that many bytes. */
  function DecodeString(buf: seq<Byte>): (r: Option<Read<seq<Byte>>>)
    ensures r.Some? ==> |r.value.value| < r.value.n <= |buf|
  {
    var p := Parse(buf);
    if p.n <= 0 then None
    else if |buf| - p.n < p.val then None
    else Some(Read(buf[p.n..p.n + p.val], p.n + p.val))
  }

  /** `decodeString` reads back what `encodeString` wrote, whatever follows. */
  lemma StringRoundTrip(s: seq<Byte>, rest: seq<Byte>)
    requires |s| < TWO63
    ensures DecodeString(StringBytes(s) + rest) == Some(Read(s, |StringBytes(s)|))
  {
    var buf := StringBytes(s) + rest;
    assert buf == Encoding(|s|) + (s + rest);
    RoundTrip(|s|, s + rest);
    assert buf[|Encoding(|s|)|..][..|s|] == s;
  }

  /** `decodeString` fails exactly when the length varint is missing or the
      string runs past the end of the buffer. */
  lemma DecodeStringFails(buf: seq<Byte>)
    ensures DecodeString(buf).None? <==> Parse(buf).n <= 0 || Parse(buf).val > |buf| - Parse(buf).n
  {
  }

  // The length check as written

  datatype StringAsWrittenOutcome = StringDecoded(r: Option<Read<seq<Byte>>>) | StringSliceOutOfRange

  /** `decodeString` as written (and the same lines in `RefRecord.decode`
      for a symbolic target): `len(buf) < int(nameLen)` is false for a length
      of 2^63 or more, and `buf[:nameLen]` then panics. */
  function DecodeStringAsWritten(buf: seq<Byte>): (r: StringAsWrittenOutcome)
  {
    var p := Parse(buf);
    if p.n <= 0 then StringDecoded(None)
    else if |buf| - p.n < GoInt(p.val) then StringDecoded(None)
    else if p.val > |buf| - p.n then StringSliceOutOfRange
    else StringDecoded(Some(Read(buf[p.n..p.n + p.val], p.n + p.val)))
  }

  /** Where the code as written does not panic it agrees with the model,
      and it panics exactly on lengths of 2^63 or more. */
  lemma DecodeStringAsWrittenAgrees(buf: seq<Byte>)
    ensures DecodeStringAsWritten(buf) == StringSliceOutOfRange
            || DecodeStringAsWritten(buf) == StringDecoded(DecodeString(buf))
    ensures DecodeStringAsWritten(buf) == StringSliceOutOfRange
            <==> Parse(buf).n > 0 && Parse(buf).val >= TWO63 && Parse(buf).val > |buf| - Parse(buf).n
  {
  }

  /** The input that shows it: a string length of 2^63 with nothing after
      it panics as written and is a format error in the model. */
  lemma HugeStringLength()
    ensures DecodeStringAsWritten(Encoding(TWO63)) == StringSliceOutOfRange
    ensures DecodeString(Encoding(TWO63)).None?
  {
    RoundTrip(TWO63, []);
    assert Encoding(TWO63) + [] == Encoding(TWO63);
  }

  // ---------------------------------------------------------------------
  // Ref records

  /** `RefRecord{RefName, UpdateIndex, Value, TargetValue, Target}`. */
  datatype RefRecord = RefRecord(refName: seq<Byte>, updateIndex: U64, value: seq<Byte>,
                                 targetValue: seq<Byte>, target: seq<Byte>)

  /** `RefRecord.valType`: 0 deletion, 1 object id, 2 object id and peeled
      id, 3 symbolic target. */
  function RefValType(r: RefRecord): (t: Byte)
    ensures t <= 3
  {
    if |r.value| > 0 then (if |r.targetValue| > 0 then 2 else 1)
    else if |r.target| > 0 then 3
    else 0
  }

  /** `RefRecord.IsTombstone`. */
  predicate RefIsTombstone(r: RefRecord)
  {
    |r.target| == 0 && |r.value| == 0
  }

  /** The value type names the value form: 2 when both hashes are set, 1
      for a plain object id, 3 for a symbolic target alone, 0 exactly for a
      tombstone. */
  lemma RefValTypeCases(r: RefRecord)
    ensures RefValType(r) == 2 <==> |r.value| > 0 && |r.targetValue| > 0
    ensures RefValType(r) == 1 <==> |r.value| > 0 && |r.targetValue| == 0
    ensures RefValType(r) == 3 <==> |r.value| == 0 && |r.target| > 0
    ensures RefValType(r) == 0 <==> RefIsTombstone(r)
  {
  }

  /** The bytes `RefRecord.encode` writes: the update index, the hashes that
      are set, and the target as a length-prefixed string when it is set. */
  function RefPayload(r: RefRecord): (b: seq<Byte>)
    requires |r.target| < TWO63
  {
    Encoding(r.updateIndex) + RefValueBytes(r)
  }

  /** The value fields `encode` writes after the update index. */
  function RefValueBytes(r: RefRecord): seq<Byte>
    requires |r.target| < TWO63
  {
    r.value + r.targetValue + (if |r.target| > 0 then StringBytes(r.target) else [])
  }

  /** `RefRecord.encode` into `room` bytes, step by step. */
  function RefEncode(r: RefRecord, room: nat): (w: Option<seq<Byte>>)
    requires |r.target| < TWO63
  {
    var w := Append(Some([]), room, Encoding(r.updateIndex));
    var w := if |r.value| > 0 then Append(w, room, r.value) else w;
    var w := if |r.targetValue| > 0 then Append(w, room, r.targetValue) else w;
    if |r.target| > 0 then PutString(w, room, r.target) else w
  }

  /** The encoder fits exactly when the whole payload does, and then writes
      the payload. */
  lemma RefEncodeFits(r: RefRecord, room: nat)
    requires |r.target| < TWO63
    ensures RefEncode(r, room) == if |RefPayload(r)| <= room then Some(RefPayload(r)) else None
  {
    var e := Encoding(r.updateIndex);
    var t := if |r.target| > 0 then StringBytes(r.target) else [];
    var w1 := Append(Some([]), room, e);
    SkipEmpty(w1, room, r.value);
    var w2 := Append(w1, room, r.value);
    SkipEmpty(w2, room, r.targetValue);
    var w3 := Append(w2, room, r.targetValue);
    SkipEmptyString(w3, room, r.target);
    AppendTwice(Some([]), room, e, r.value);
    AppendTwice(Some([]), room, e + r.value, r.targetValue);
    AppendTwice(Some([]), room, e + r.value + r.targetValue, t);
    RefPayloadFlat(r);
    AppendFromEmpty(room, RefPayload(r));
  }

  lemma RefPayloadFlat(r: RefRecord)
    requires |r.target| < TWO63
    ensures RefPayload(r)
            == Encoding(r.updateIndex) + r.value + r.targetValue + (if |r.target| > 0 then StringBytes(r.target) else [])
  {
  }

  /** `RefRecord.decode(buf, key, valType)`: the receiver is cleared, the
      name is the key, and after the update index the value type says which
      value fields follow. */
  function RefDecode(buf: seq<Byte>, key: seq<Byte>, valType: Byte): (r: Option<Read<RefRecord>>)
    ensures r.Some? ==> r.value.n <= |buf| && r.value.value.refName == key
  {
    var p := Parse(buf);
    if p.n <= 0 then None
    else
      match RefDecodeValue(buf[p.n..], key, p.val, valType)
      case None => None
      case Some(v) => Some(Read(v.value, p.n + v.n))
  }

  /** The `switch valType` of `RefRecord.decode`, on the bytes after the
      update index. Value types other than 1, 2 and 3 carry no value. */
  function RefDecodeValue(b: seq<Byte>, key: seq<Byte>, updateIndex: U64, valType: Byte): (r: Option<Read<RefRecord>>)
    ensures r.Some? ==> r.value.n <= |b|
    ensures r.Some? ==> |r.value.value.target| <= |b|
  {
    if valType == 1 || valType == 2 then
      if |b| < HashSize then None
      else
        var v := b[..HashSize];
        var b' := b[HashSize..];
        if valType == 1 then Some(Read(RefRecord(key, updateIndex, v, [], []), HashSize))
        else if |b'| < HashSize then None
        else Some(Read(RefRecord(key, updateIndex, v, b'[..HashSize], []), 2 * HashSize))
    else if valType == 3 then
      match DecodeString(b)
      case None => None
      case Some(t) => Some(Read(RefRecord(key, updateIndex, [], [], t.value), t.n))
    else Some(Read(RefRecord(key, updateIndex, [], [], []), 0))
  }

  /** A ref record the decoder can reproduce: hashes of the full length, a
      peeled id only beside an object id, and a symbolic target only on its
      own. */
  predicate RefWellFormed(r: RefRecord)
  {
    && (|r.value| == 0 || |r.value| == HashSize)
    && (|r.targetValue| == 0 || (|r.targetValue| == HashSize && |r.value| == HashSize))
    && (|r.value| > 0 ==> |r.target| == 0)
    && |r.target| < TWO63
  }

  /** Decoding what `encode` wrote, with the record's own value type and
      name, gives the record back and consumes exactly the bytes written,
      whatever follows. */
  lemma RefRoundTrip(r: RefRecord, rest: seq<Byte>)
    requires RefWellFormed(r)
    ensures RefDecode(RefPayload(r) + rest, r.refName, RefValType(r)) == Some(Read(r, |RefPayload(r)|))
  {
    RefPayloadSplit(r, rest);
    RefValueRoundTrip(r, rest);
    RefDecodeAt(RefPayload(r) + rest, r.refName, RefValType(r), r.updateIndex, RefValueBytes(r) + rest,
                r, |RefValueBytes(r)|, |RefPayload(r)|);
  }

  lemma RefPayloadSplit(r: RefRecord, rest: seq<Byte>)
    requires |r.target| < TWO63
    ensures RefPayload(r) + rest == Encoding(r.updateIndex) + (RefValueBytes(r) + rest)
    ensures |RefPayload(r)| == |Encoding(r.updateIndex)| + |RefValueBytes(r)|
  {
  }

  /** `RefRecord.decode` reads the update index, then the value fields from
      the bytes after it. */
  lemma RefDecodeAt(buf: seq<Byte>, key: seq<Byte>, valType: Byte, updateIndex: U64, tail: seq<Byte>,
                    v: RefRecord, m: nat, n: nat)
    requires buf == Encoding(updateIndex) + tail
    requires RefDecodeValue(tail, key, updateIndex, valType) == Some(Read(v, m))
    requires n == |Encoding(updateIndex)| + m
    ensures RefDecode(buf, key, valType) == Some(Read(v, n))
  {
    RoundTrip(updateIndex, tail);
    assert buf[|Encoding(updateIndex)|..] == tail;
  }

  lemma RefValueRoundTrip(r: RefRecord, rest: seq<Byte>)
    requires RefWellFormed(r)
    ensures RefDecodeValue(RefValueBytes(r) + rest, r.refName, r.updateIndex, RefValType(r))
            == Some(Read(r, |RefValueBytes(r)|))
  {
    var tail := RefValueBytes(r) + rest;
    if |r.target| > 0 {
      assert tail == StringBytes(r.target) + rest;
      StringRoundTrip(r.target, rest);
    } else if |r.value| > 0 {
      assert tail[..HashSize] == r.value;
      assert tail[HashSize..] == r.targetValue + rest;
      if |r.targetValue| > 0 {
        assert tail[HashSize..][..HashSize] == r.targetValue;
      }
    }
  }

  /** Whatever the decoder accepts from a Go buffer comes out well formed. */
  lemma RefDecodeWellFormed(buf: seq<Byte>, key: seq<Byte>, valType: Byte)
    requires |buf| < TWO63
    requires RefDecode(buf, key, valType).Some?
    ensures RefWellFormed(RefDecode(buf, key, valType).value.value)
  {
  }

  // ---------------------------------------------------------------------
  // Object records

  /** `objRecord{HashPrefix, Offsets}`: the blocks that mention an object. */
  datatype ObjRecord = ObjRecord(hashPrefix: seq<Byte>, offsets: seq<U64>)

  /** `objRecord.valType`: a count from 1 to 7 travels in the key's three
      spare bits; any other count is written out. */
  function ObjValType(r: ObjRecord): (t: Byte)
    ensures t < 8
    ensures t != 0 <==> 0 < |r.offsets| < 8
    ensures t != 0 ==> t == |r.offsets|
  {
    if 0 < |r.offsets| < 8 then |r.offsets| else 0
  }

  /** The varints after the first offset: each offset minus the one before,
      with `uint64` wrap-around. */
  function Deltas(last: U64, rest: seq<U64>): seq<Byte>
    decreases |rest|
  {
    if rest == [] then [] else Encoding(Sub64(rest[0], last)) + Deltas(rest[0], rest[1..])
  }

  /** The count varint `encode` writes when the value type cannot hold it. */
  function ObjCountBytes(r: ObjRecord): seq<Byte>
    requires |r.offsets| < TWO63
  {
    if |r.offsets| == 0 || |r.offsets| >= 8 then Encoding(|r.offsets|) else []
  }

  /** The bytes `objRecord.encode` writes. */
  function ObjPayload(r: ObjRecord): seq<Byte>
    requires |r.offsets| < TWO63
  {
    ObjCountBytes(r) + ObjOffsetBytes(r.offsets)
  }

  /** The first offset, then the deltas. */
  function ObjOffsetBytes(offs: seq<U64>): seq<Byte>
  {
    if |offs| == 0 then [] else Encoding(offs[0]) + Deltas(offs[0], offs[1..])
  }

  /** `objRecord.encode` into `room` bytes: the count when needed, the
      first offset, then a loop over the deltas. It fits exactly when the
      whole payload does. */
  method ObjEncode(r: ObjRecord, room: nat) returns (w: Option<seq<Byte>>)
    requires |r.offsets| < TWO63
    ensures w == if |ObjPayload(r)| <= room then Some(ObjPayload(r)) else None
  {
    var offs := r.offsets;
    var count := |offs|;
    ghost var payload := ObjPayload(r);
    w := Some([]);
    if count == 0 || count >= 8 {
      AppendFromEmpty(room, Encoding(count));
      w := Append(w, room, Encoding(count));
      if w.None? {
        assert |payload| > room;
        return;
      }
    }
    assert w == Some(ObjCountBytes(r));
    if count == 0 {
      assert ObjOffsetBytes(offs) == [];
      assert payload == ObjCountBytes(r);
      assert |payload| <= room;
      return;
    }
    ObjPayloadSplit(r);
    AppendTooLong(w.value, room, Encoding(offs[0]), Deltas(offs[0], offs[1..]));
    assert payload == w.value + (Encoding(offs[0]) + Deltas(offs[0], offs[1..]));
    w := Append(w, room, Encoding(offs[0]));
    if w.None? {
      assert |payload| > room;
      return;
    }
    var last := offs[0];
    var i := 1;
    while i < count
      invariant 1 <= i <= count
      invariant last == offs[i - 1]
      invariant w.Some? && |w.value| <= room && payload == w.value + Deltas(last, offs[i..])
      decreases count - i
    {
      DeltasStep(last, offs, i);
      AppendTooLong(w.value, room, Encoding(Sub64(offs[i], last)), Deltas(offs[i], offs[i + 1..]));
      w := Append(w, room, Encoding(Sub64(offs[i], last)));
      if w.None? {
        assert |payload| > room;
        return;
      }
      last := offs[i];
      i := i + 1;
    }
    assert offs[i..] == [];
    assert payload == w.value;
    assert |payload| <= room;
  }

  lemma ObjPayloadSplit(r: ObjRecord)
    requires 0 < |r.offsets| < TWO63
    ensures ObjPayload(r) == ObjCountBytes(r) + (Encoding(r.offsets[0]) + Deltas(r.offsets[0], r.offsets[1..]))
  {
  }

  lemma DeltasStep(last: U64, offs: seq<U64>, i: nat)
    requires i < |offs|
    ensures Deltas(last, offs[i..]) == Encoding(Sub64(offs[i], last)) + Deltas(offs[i], offs[i + 1..])
  {
    assert offs[i..][1..] == offs[i + 1..];
  }

  /** A step either extends what was written or fails, and then the whole
      rest of the payload cannot fit either. */
  lemma AppendTooLong(x: seq<Byte>, room: nat, piece: seq<Byte>, rest: seq<Byte>)
    ensures Append(Some(x), room, piece).Some? ==> Append(Some(x), room, piece).value + rest == x + (piece + rest)
    ensures Append(Some(x), room, piece).None? ==> |x + (piece + rest)| > room
  {
  }

  /** `count` delta varints read one after the other, each added to the
      offset before it. */
  function DecodeDeltas(b: seq<Byte>, count: nat, last: U64): (r: Option<Read<seq<U64>>>)
    ensures r.Some? ==> |r.value.value| == count && r.value.n <= |b|
    decreases count
  {
    if count == 0 then Some(Read([], 0))
    else
      var p := Parse(b);
      if p.n <= 0 then None
      else
        var o := Add64(p.val, last);
        match DecodeDeltas(b[p.n..], count - 1, o)
        case None => None
        case Some(t) => Some(Read([o] + t.value, p.n + t.n))
  }

  /** What `objRecord.decode(buf, prefix, cnt3)` reads: the count is
      `cnt3`, or a varint when `cnt3` is 0; then the offsets. */
  function ObjParse(buf: seq<Byte>, prefix: seq<Byte>, cnt3: Byte): (r: Option<Read<ObjRecord>>)
    ensures r.Some? ==> r.value.n <= |buf| && r.value.value.hashPrefix == prefix
  {
    var c := ObjCount(buf, cnt3);
    if cnt3 == 0 && c.n <= 0 then None
    else
      match OffsetsParse(buf[c.n..], c.val)
      case None => None
      case Some(t) => Some(Read(ObjRecord(prefix, t.value), c.n + t.n))
  }

  /** The count of `objRecord.decode` and the bytes it took. */
  function ObjCount(buf: seq<Byte>, cnt3: Byte): (c: VarIntResult)
    ensures cnt3 != 0 ==> c == VarIntResult(cnt3, 0)
    ensures cnt3 == 0 ==> c == Parse(buf)
  {
    if cnt3 == 0 then Parse(buf) else VarIntResult(cnt3, 0)
  }

  /** `count` offsets: the first as a varint, then `count - 1` deltas. */
  function OffsetsParse(b: seq<Byte>, count: nat): (r: Option<Read<seq<U64>>>)
    ensures r.Some? ==> |r.value.value| == count && r.value.n <= |b|
  {
    if count == 0 then Some(Read([], 0))
    else
      var p := Parse(b);
      if p.n <= 0 then None
      else
        match DecodeDeltas(b[p.n..], count - 1, p.val)
        case None => None
        case Some(t) => Some(Read([p.val] + t.value, p.n + t.n))
  }

  /** The offsets decoded so far in front of what the rest decodes to. */
  function After(offsets: seq<U64>, pos: nat, t: Option<Read<seq<U64>>>): Option<Read<seq<U64>>>
  {
    match t
    case None => None
    case Some(x) => Some(Read(offsets + x.value, pos + x.n))
  }

  /** One round of the loop: the varint at `pos`, added to `prev`, moves
      from the rest of the buffer to the offsets decoded so far. */
  lemma DecodeDeltasStep(result: Option<Read<seq<U64>>>, buf: seq<Byte>, offsets: seq<U64>, pos: nat, remaining: nat,
                         prev: U64, v: U64, k: int, buf': seq<Byte>, offsets': seq<U64>, pos': nat, remaining': nat,
                         prev': U64)
    requires remaining > 0
    requires result == After(offsets, pos, DecodeDeltas(buf, remaining, prev))
    requires Parse(buf) == VarIntResult(v, k) && k > 0
    requires k <= |buf| && buf' == buf[k..] && pos' == pos + k && remaining' == remaining - 1
    requires prev' == Add64(v, prev) && offsets' == offsets + [prev']
    ensures result == After(offsets', pos', DecodeDeltas(buf', remaining', prev'))
  {
    DecodeDeltasUnfold(buf, remaining, prev, v, k);
    AfterAfter(offsets, pos, prev', k, DecodeDeltas(buf', remaining', prev'));
  }

  /** The first round of `DecodeDeltas` on a varint that parses. */
  lemma DecodeDeltasUnfold(bs: seq<Byte>, count: nat, last: U64, v: U64, k: int)
    requires count > 0 && Parse(bs) == VarIntResult(v, k) && k > 0
    ensures k <= |bs|
    ensures DecodeDeltas(bs, count, last) == After([Add64(v, last)], k, DecodeDeltas(bs[k..], count - 1, Add64(v, last)))
  {
  }

  /** Two decoded stretches, one after the other. */
  lemma AfterAfter(offsets: seq<U64>, pos: nat, o: U64, k: nat, t: Option<Read<seq<U64>>>)
    ensures After(offsets, pos, After([o], k, t)) == After(offsets + [o], pos + k, t)
  {
    if t.Some? {
      assert offsets + ([o] + t.value.value) == (offsets + [o]) + t.value.value;
    }
  }

  /** The decoding loop of `objRecord.decode`, after the count and the
      first offset: `count` more varints, each added to the offset before
      it. */
  method DecodeDeltasLoop(b: seq<Byte>, count: U64, last: U64) returns (ok: bool, offsets: seq<U64>, n: nat)
    ensures ok <==> DecodeDeltas(b, count, last).Some?
    ensures ok ==> DecodeDeltas(b, count, last) == Some(Read(offsets, n))
  {
    ghost var result := DecodeDeltas(b, count, last);
    var buf := b;
    var pos: nat := 0;
    var remaining: nat := count;
    var prev := last;
    offsets := [];
    assert result.Some? ==> offsets + result.value.value == result.value.value;
    while remaining > 0
      invariant result == After(offsets, pos, DecodeDeltas(buf, remaining, prev))
      decreases remaining
    {
      var o, k := GetVarInt(buf);
      if k <= 0 {
        return false, [], 0;
      }
      ghost var buf0, offsets0, pos0, remaining0, prev0 := buf, offsets, pos, remaining, prev;
      buf := buf[k..];
      pos := pos + k;
      remaining := remaining - 1;
      prev := Add64(o, prev);
      offsets := offsets + [prev];
      DecodeDeltasStep(result, buf0, offsets0, pos0, remaining0, prev0, o, k, buf, offsets, pos, remaining, prev);
    }
    assert offsets + [] == offsets;
    n := pos;
    ok := true;
  }

  /** A varint `e` in front of `tail` parses to its value and leaves
      `tail`. */
  lemma EncodingThen(x: U64, e: seq<Byte>, tail: seq<Byte>, b: seq<Byte>)
    requires e == Encoding(x) && b == e + tail
    ensures Parse(b) == VarIntResult(x, |e|) && 0 < |e| <= |b|
    ensures b[|e|..] == tail
  {
    RoundTrip(x, tail);
  }

  lemma DecodeDeltasCons(b: seq<Byte>, count: nat, last: U64, v: U64, k: int, tail: seq<Byte>, t: seq<U64>, m: nat,
                         xs: seq<U64>, n: nat)
    requires count > 0 && Parse(b) == VarIntResult(v, k) && 0 < k <= |b| && b[k..] == tail
    requires DecodeDeltas(tail, count - 1, Add64(v, last)) == Some(Read(t, m))
    requires xs == [Add64(v, last)] + t && n == k + m
    ensures DecodeDeltas(b, count, last) == Some(Read(xs, n))
  {
  }

  /** Decoding the deltas written after `last` gives back the offsets. */
  lemma {:induction false} DeltasRoundTrip(last: U64, xs: seq<U64>, rest: seq<Byte>)
    ensures DecodeDeltas(Deltas(last, xs) + rest, |xs|, last) == Some(Read(xs, |Deltas(last, xs)|))
    decreases |xs|
  {
    if xs == [] {
      assert Deltas(last, xs) + rest == rest;
    } else {
      var d := Sub64(xs[0], last);
      var e := Encoding(d);
      var ds := Deltas(xs[0], xs[1..]);
      var b := Deltas(last, xs) + rest;
      assert Deltas(last, xs) == e + ds;
      assert b == e + (ds + rest);
      DeltasRoundTrip(xs[0], xs[1..], rest);
      EncodingThen(d, e, ds + rest, b);
      AddSubCancel(last, xs[0]);
      assert [xs[0]] + xs[1..] == xs;
      DecodeDeltasCons(b, |xs|, last, d, |e|, ds + rest, xs[1..], |ds|, xs, |Deltas(last, xs)|);
    }
  }

  /** Decoding the offsets `encode` writes gives them back. */
  lemma OffsetsRoundTrip(offs: seq<U64>, rest: seq<Byte>)
    ensures OffsetsParse(ObjOffsetBytes(offs) + rest, |offs|) == Some(Read(offs, |ObjOffsetBytes(offs)|))
  {
    if offs != [] {
      var xs := offs[1..];
      var e := Encoding(offs[0]);
      var ds := Deltas(offs[0], xs);
      var b := ObjOffsetBytes(offs) + rest;
      assert ObjOffsetBytes(offs) == e + ds;
      assert b == e + (ds + rest);
      EncodingThen(offs[0], e, ds + rest, b);
      DeltasRoundTrip(offs[0], xs, rest);
      assert [offs[0]] + xs == offs;
      OffsetsParseCons(b, |offs|, offs[0], |e|, ds + rest, xs, |ds|, offs, |ObjOffsetBytes(offs)|);
    }
  }

  lemma OffsetsParseCons(b: seq<Byte>, count: nat, v: U64, k: int, tail: seq<Byte>, t: seq<U64>, m: nat,
                         offs: seq<U64>, n: nat)
    requires count > 0 && Parse(b) == VarIntResult(v, k) && 0 < k <= |b| && b[k..] == tail
    requires DecodeDeltas(tail, count - 1, v) == Some(Read(t, m))
    requires offs == [v] + t && n == k + m
    ensures OffsetsParse(b, count) == Some(Read(offs, n))
  {
  }

  /** The record from its count prefix of `m` bytes and its offsets. */
  lemma ObjParseAt(buf: seq<Byte>, prefix: seq<Byte>, cnt3: Byte, m: nat, offs: seq<U64>, tail: seq<Byte>)
    requires |offs| < TWO64
    requires ObjCount(buf, cnt3) == VarIntResult(|offs|, m)
    requires cnt3 == 0 ==> m > 0
    requires m <= |buf| && buf[m..] == ObjOffsetBytes(offs) + tail
    ensures ObjParse(buf, prefix, cnt3) == Some(Read(ObjRecord(prefix, offs), m + |ObjOffsetBytes(offs)|))
  {
    hide ObjParse, OffsetsParse, ObjOffsetBytes, ObjCount;
    OffsetsAt(offs, tail, buf[m..]);
    ObjParseThen(buf, prefix, cnt3, m, |offs|, Read(offs, |ObjOffsetBytes(offs)|));
  }

  /** `ObjParse` once the count and the offsets have been read. */
  lemma ObjParseThen(buf: seq<Byte>, prefix: seq<Byte>, cnt3: Byte, m: nat, count: U64, t: Read<seq<U64>>)
    requires ObjCount(buf, cnt3) == VarIntResult(count, m) && (cnt3 == 0 ==> m > 0) && m <= |buf|
    requires OffsetsParse(buf[m..], count) == Some(t)
    ensures ObjParse(buf, prefix, cnt3) == Some(Read(ObjRecord(prefix, t.value), m + t.n))
  {
  }

  lemma OffsetsAt(offs: seq<U64>, tail: seq<Byte>, b: seq<Byte>)
    requires b == ObjOffsetBytes(offs) + tail
    ensures OffsetsParse(b, |offs|) == Some(Read(offs, |ObjOffsetBytes(offs)|))
  {
    OffsetsRoundTrip(offs, tail);
  }

  /** Decoding an encoded obj record, with the value type `encode`'s
      caller stores in the key, gives the record back. */
  lemma ObjRoundTrip(r: ObjRecord, rest: seq<Byte>)
    requires |r.offsets| < TWO63
    ensures ObjParse(ObjPayload(r) + rest, r.hashPrefix, ObjValType(r)) == Some(Read(r, |ObjPayload(r)|))
  {
    ObjCountRead(r, rest);
    ObjOffsetsAfterCount(r, rest);
    ObjParseAt(ObjPayload(r) + rest, r.hashPrefix, ObjValType(r), |ObjCountBytes(r)|, r.offsets, rest);
  }

  /** The count comes back from the key's spare bits or from the varint. */
  lemma ObjCountRead(r: ObjRecord, rest: seq<Byte>)
    requires |r.offsets| < TWO63
    ensures ObjCount(ObjPayload(r) + rest, ObjValType(r)) == VarIntResult(|r.offsets|, |ObjCountBytes(r)|)
  {
    var offs := r.offsets;
    if |offs| == 0 || |offs| >= 8 {
      var ob := ObjOffsetBytes(offs);
      assert ObjPayload(r) + rest == Encoding(|offs|) + (ob + rest);
      RoundTrip(|offs|, ob + rest);
    }
  }

  lemma ObjOffsetsAfterCount(r: ObjRecord, rest: seq<Byte>)
    requires |r.offsets| < TWO63
    ensures (ObjPayload(r) + rest)[|ObjCountBytes(r)|..] == ObjOffsetBytes(r.offsets) + rest
  {
    assert ObjPayload(r) + rest == ObjCountBytes(r) + (ObjOffsetBytes(r.offsets) + rest);
  }

  /** `objRecord.decode`: the count, then the offsets. */
  method ObjDecode(buf: seq<Byte>, prefix: seq<Byte>, cnt3: Byte) returns (ok: bool, r: ObjRecord, n: nat)
    ensures ok <==> ObjParse(buf, prefix, cnt3).Some?
    ensures ok ==> ObjParse(buf, prefix, cnt3) == Some(Read(r, n))
  {
    r := ObjRecord(prefix, []);
    var count: U64;
    var m: nat := 0;
    if cnt3 == 0 {
      var c, k := GetVarInt(buf);
      if k <= 0 {
        return false, r, 0;
      }
      count, m := c, k;
    } else {
      count := cnt3;
    }
    assert ObjCount(buf, cnt3) == VarIntResult(count, m);
    var offsOk, offs, k := OffsetsDecode(buf[m..], count);
    if !offsOk {
      return false, r, 0;
    }
    r := ObjRecord(prefix, offs);
    n := m + k;
    ok := true;
  }

  /** The part of `objRecord.decode` after the count: nothing for a count
      of 0, else the first offset and the loop over the deltas. */
  method OffsetsDecode(b: seq<Byte>, count: U64) returns (ok: bool, offs: seq<U64>, n: nat)
    ensures ok <==> OffsetsParse(b, count).Some?
    ensures ok ==> OffsetsParse(b, count) == Some(Read(offs, n))
  {
    if count == 0 {
      return true, [], 0;
    }
    var first, k := GetVarInt(b);
    if k <= 0 {
      return false, [], 0;
    }
    var deltasOk, rest, m := DecodeDeltasLoop(b[k..], count - 1, first);
    if !deltasOk {
      return false, [], 0;
    }
    offs, n, ok := [first] + rest, k + m, true;
  }

  // ---------------------------------------------------------------------
  // Index records

  /** `indexRecord{LastKey, Offset}`. */
  datatype IndexRecord = IndexRecord(lastKey: seq<Byte>, offset: U64)

  /** `indexRecord.encode`: the offset as a varint. */
  function IndexEncode(r: IndexRecord, room: nat): (w: Option<seq<Byte>>)
  {
    Append(Some([]), room, Encoding(r.offset))
  }

  /** `indexRecord.decode(buf, key, _)`. */
  function IndexDecode(buf: seq<Byte>, key: seq<Byte>): (r: Option<Read<IndexRecord>>)
  {
    var p := Parse(buf);
    if p.n <= 0 then None else Some(Read(IndexRecord(key, p.val), p.n))
  }

  /** The index payload is the varint round trip on the offset: one to ten
      bytes, read back whole. */
  lemma IndexRoundTrip(r: IndexRecord, room: nat, rest: seq<Byte>)
    requires |Encoding(r.offset)| <= room
    ensures IndexEncode(r, room).Some?
    ensures var b := IndexEncode(r, room).value;
      1 <= |b| <= 10 && IndexDecode(b + rest, r.lastKey) == Some(Read(r, |b|))
  {
    EncodingShape(r.offset);
    AppendFromEmpty(room, Encoding(r.offset));
    RoundTrip(r.offset, rest);
  }
}
