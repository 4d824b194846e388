/** Prefix-compressed keys (`encodeKey`, `decodeKey`, `decodeRestartKey`).
    A key is written as the varint length of the prefix it shares with the
    previous key, the varint `(suffixLen << 3) | extra`, and the literal
    suffix; `extra` is the 3-bit value type of the record. */
module Keys {
  import opened Bytes
  import opened VarInt

  /** Go's `int` bound: no string or slice is longer than this. */
  const TWO63: int := 0x8000_0000_0000_0000

  /** The varint `uint64(suffixLen<<3) | uint64(extra)`, with the shift
      wrapping as Go's does. A value type below 8 lands in the three low
      bits that the shift cleared. */
  function SuffixField(suffixLen: nat, extra: Byte): (f: U64)
    requires suffixLen < TWO63
    ensures f == BitOr((suffixLen * 8) % TWO64, extra)
  {
    var shifted := (suffixLen * 8) % TWO64;
    if extra < 8 then
      assert shifted == 8 * (shifted / 8);
      BitOrLowBits(shifted / 8, extra);
      shifted + extra
    else
      Pow2At64();
      BitOrBound(shifted, extra, 64);
      BitOr(shifted, extra)
  }

  lemma {:induction false} BitOrBound(a: nat, b: nat, k: nat)
    requires a < Pow2(k) && b < Pow2(k)
    ensures BitOr(a, b) < Pow2(k)
    ensures k == 64 ==> BitOr(a, b) < TWO64
    decreases k
  {
    if k == 64 {
      Pow2At64();
    }
    if a != 0 && b != 0 {
      BitOrBound(a / 2, b / 2, k - 1);
    }
  }

  /** The bytes `encodeKey` writes when they fit. */
  function KeyBytes(prevKey: seq<Byte>, key: seq<Byte>, extra: Byte): (b: seq<Byte>)
    requires |key| < TWO63
  {
    var p := CommonPrefix(prevKey, key);
    Encoding(p) + Encoding(SuffixField(|key| - p, extra)) + key[p..]
  }

  /** `encodeKey`'s results: `bytes` stands for what `encodeKey` reports
      written (its `n` bytes); when the key does not fit, Go may already
      have written a varint or two into the buffer, yet reports 0.
      As in Go, `restart` is reported even when the key does not fit. */
  datatype EncodedKey = EncodedKey(bytes: seq<Byte>, restart: bool, fits: bool)

  /** `encodeKey(buf, prevKey, key, extra)` into a buffer of `room` bytes,
      step by step: prefix varint, suffix varint, suffix bytes, each checked
      against the room that is left. */
  function EncodeKey(room: nat, prevKey: seq<Byte>, key: seq<Byte>, extra: Byte): (r: EncodedKey)
    requires |key| < TWO63
  {
    var p := CommonPrefix(prevKey, key);
    var restart := p == 0;
    var e1 := Encoding(p);
    if |e1| > room then EncodedKey([], restart, false)
    else
      var e2 := Encoding(SuffixField(|key| - p, extra));
      if |e2| > room - |e1| then EncodedKey([], restart, false)
      else if room - |e1| - |e2| < |key| - p then EncodedKey([], restart, false)
      else EncodedKey(e1 + e2 + key[p..], restart, true)
  }

  /** The step-by-step checks amount to one: the whole key fits or nothing
      is reported written. */
  lemma EncodeKeyFits(room: nat, prevKey: seq<Byte>, key: seq<Byte>, extra: Byte)
    requires |key| < TWO63
    ensures var r := EncodeKey(room, prevKey, key, extra);
      && (r.restart <==> CommonPrefix(prevKey, key) == 0)
      && (r.fits <==> |KeyBytes(prevKey, key, extra)| <= room)
      && (r.fits ==> r.bytes == KeyBytes(prevKey, key, extra))
      && (!r.fits ==> r.bytes == [])
  {
  }

  /** A key is a restart exactly when it shares nothing with the previous
      key, which is always the case against an empty previous key. */
  lemma RestartIffNoSharedPrefix(room: nat, prevKey: seq<Byte>, key: seq<Byte>, extra: Byte)
    requires |key| < TWO63
    ensures EncodeKey(room, prevKey, key, extra).restart
            <==> (prevKey == [] || key == [] || prevKey[0] != key[0])
    ensures prevKey == [] ==> EncodeKey(room, prevKey, key, extra).restart
  {
    var p := CommonPrefix(prevKey, key);
    if p > 0 {
      assert prevKey[..p][0] == key[..p][0];
    }
  }

  /** What `decodeKey` returns on success. */
  datatype DecodedKey = DecodedKey(n: nat, key: seq<Byte>, extra: Byte)

  /** `decodeKey(buf, prevKey)`. */
  function DecodeKey(buf: seq<Byte>, prevKey: seq<Byte>): (r: Option<DecodedKey>)
  {
    var p := Parse(buf);
    if p.n <= 0 then None
    else
      var rest := buf[p.n..];
      var q := Parse(rest);
      if q.n <= 0 then None
      else
        var rest2 := rest[q.n..];
        var extra := q.val % 8;
        var suffixLen := q.val / 8;
        if suffixLen > |rest2| then None
        else if p.val > |prevKey| then None
        else Some(DecodedKey(p.n + q.n + suffixLen, prevKey[..p.val] + rest2[..suffixLen], extra))
  }

  lemma DecodeKeyConsumes(buf: seq<Byte>, prevKey: seq<Byte>)
    ensures var r := DecodeKey(buf, prevKey);
      r.Some? ==> 2 <= r.value.n <= |buf|
  {
    var p := Parse(buf);
    ParseBounds(buf);
    if p.n > 0 {
      ParseBounds(buf[p.n..]);
    }
  }

  /** `decodeKey` undoes `encodeKey` for a 3-bit `extra`: the same byte
      count, the key and the side value come back, whatever follows. */
  lemma KeyRoundTrip(prevKey: seq<Byte>, key: seq<Byte>, extra: Byte, rest: seq<Byte>)
    requires |key| < TWO63 / 4
    requires extra < 8
    ensures DecodeKey(KeyBytes(prevKey, key, extra) + rest, prevKey)
            == Some(DecodedKey(|KeyBytes(prevKey, key, extra)|, key, extra))
  {
    var p := CommonPrefix(prevKey, key);
    KeyBytesShape(prevKey, key, extra);
    KeyRoundTripAt(prevKey, key, p, extra, KeyBytes(prevKey, key, extra), rest);
  }

  lemma KeyBytesShape(prevKey: seq<Byte>, key: seq<Byte>, extra: Byte)
    requires |key| < TWO63 / 4 && extra < 8
    ensures var p := CommonPrefix(prevKey, key);
      KeyBytes(prevKey, key, extra) == Encoding(p) + Encoding(8 * (|key| - p) + extra) + key[p..]
  {
    var p := CommonPrefix(prevKey, key);
    SuffixFieldSmall(|key| - p, extra);
  }

  /** The round trip for any shared prefix length `p` the two keys agree on. */
  lemma KeyRoundTripAt(prevKey: seq<Byte>, key: seq<Byte>, p: nat, extra: Byte, kb: seq<Byte>, rest: seq<Byte>)
    requires |key| < TWO63 / 4 && extra < 8
    requires p <= |prevKey| && p <= |key| && prevKey[..p] == key[..p]
    requires kb == Encoding(p) + Encoding(8 * (|key| - p) + extra) + key[p..]
    ensures DecodeKey(kb + rest, prevKey) == Some(DecodedKey(|kb|, key, extra))
  {
    var sl := |key| - p;
    var f := 8 * sl + extra;
    DivMod8(sl, extra);
    var t := key[p..] + rest;
    var buf := kb + rest;
    assert buf == Encoding(p) + Encoding(f) + t;
    TwoVarints(p, f, t);
    var m := |Encoding(p)| + |Encoding(f)|;
    assert buf[m..m + sl] == key[p..] by {
      assert buf[m..] == t;
    }
    assert |kb| == m + sl;
    assert f / 8 == sl && f % 8 == extra;
    assert prevKey[..p] + buf[m..m + sl] == key;
    DecodeKeyFromParts(buf, prevKey, p, |Encoding(p)|, f, |Encoding(f)|);
  }

  /** Two varints in a row are read back one after the other. */
  lemma TwoVarints(v1: U64, v2: U64, t: seq<Byte>)
    ensures var buf := Encoding(v1) + Encoding(v2) + t;
      && Parse(buf) == VarIntResult(v1, |Encoding(v1)|)
      && Parse(buf[|Encoding(v1)|..]) == VarIntResult(v2, |Encoding(v2)|)
      && buf[|Encoding(v1)| + |Encoding(v2)|..] == t
  {
    var buf := Encoding(v1) + Encoding(v2) + t;
    assert buf == Encoding(v1) + (Encoding(v2) + t);
    RoundTrip(v1, Encoding(v2) + t);
    assert buf[|Encoding(v1)|..] == Encoding(v2) + t;
    RoundTrip(v2, t);
  }

  lemma DecodeKeyFromParts(buf: seq<Byte>, prevKey: seq<Byte>, pv: U64, pn: nat, qv: U64, qn: nat)
    requires 0 < pn <= |buf| && Parse(buf) == VarIntResult(pv, pn)
    requires 0 < qn <= |buf| - pn && Parse(buf[pn..]) == VarIntResult(qv, qn)
    requires qv / 8 <= |buf| - pn - qn && pv <= |prevKey|
    ensures DecodeKey(buf, prevKey)
            == Some(DecodedKey(pn + qn + qv / 8, prevKey[..pv] + buf[pn + qn..pn + qn + qv / 8], qv % 8))
  {
    assert buf[pn..][qn..] == buf[pn + qn..];
    assert buf[pn + qn..][..qv / 8] == buf[pn + qn..pn + qn + qv / 8];
  }

  /** For keys of realistic length nothing wraps, and the 3-bit value sits
      in the low bits of the suffix field. */
  lemma SuffixFieldSmall(sl: nat, extra: Byte)
    requires sl < TWO63 / 4 && extra < 8
    ensures SuffixField(sl, extra) == 8 * sl + extra
  {
    assert sl * 8 < TWO64;
    assert (sl * 8) % TWO64 == 8 * sl;
  }

  lemma DivMod8(sl: nat, e: nat)
    requires e < 8
    ensures (8 * sl + e) / 8 == sl && (8 * sl + e) % 8 == e
  {
  }

  /** `decodeKey` fails when the shared prefix is longer than the previous
      key or the suffix runs past the end of the buffer. */
  lemma DecodeKeyFailures(buf: seq<Byte>, prevKey: seq<Byte>)
    requires Parse(buf).n > 0 && Parse(buf[Parse(buf).n..]).n > 0
    ensures var p := Parse(buf);
      var q := Parse(buf[p.n..]);
      (p.val > |prevKey| || q.val / 8 > |buf| - p.n - q.n) <==> DecodeKey(buf, prevKey).None?
  {
    ParseBounds(buf);
    ParseBounds(buf[Parse(buf).n..]);
  }

  /** `decodeRestartKey(buf, off)`: at a restart the prefix varint is the
      single byte 0, so the literal key follows the suffix varint. */
  function DecodeRestartKey(buf: seq<Byte>, off: nat): (r: Option<seq<Byte>>)
  {
    if |buf| <= off then None
    else if buf[off] != 0 then None
    else
      var rest := buf[off + 1..];
      var q := Parse(rest);
      if q.n <= 0 then None
      else
        var l := q.val / 8;
        if |rest| - q.n < l then None
        else Some(rest[q.n..q.n + l])
  }

  /** The restart key at an offset fails unless the byte there is 0. */
  lemma RestartKeyNeedsZero(buf: seq<Byte>, off: nat)
    requires off < |buf| && buf[off] != 0
    ensures DecodeRestartKey(buf, off).None?
  {
  }

  /** A key encoded against an empty previous key is read back at its
      offset by `decodeRestartKey`. */
  lemma RestartKeyRoundTrip(before: seq<Byte>, key: seq<Byte>, extra: Byte, rest: seq<Byte>)
    requires |key| < TWO63 / 4
    requires extra < 8
    ensures DecodeRestartKey(before + KeyBytes([], key, extra) + rest, |before|) == Some(key)
  {
    var kb := KeyBytes([], key, extra);
    KeyBytesShape([], key, extra);
    assert Encoding(0) == [0];
    var buf := before + kb + rest;
    assert buf[|before|..] == kb + rest;
    RestartKeyAt(key, extra, buf, |before|, rest);
  }

  lemma RestartKeyAt(key: seq<Byte>, extra: Byte, buf: seq<Byte>, off: nat, t: seq<Byte>)
    requires |key| < TWO63 / 4 && extra < 8
    requires off <= |buf| && buf[off..] == [0] + Encoding(8 * |key| + extra) + key + t
    ensures DecodeRestartKey(buf, off) == Some(key)
  {
    var f := 8 * |key| + extra;
    DivMod8(|key|, extra);
    var r := buf[off + 1..];
    assert buf[off] == buf[off..][0] == 0;
    assert r == buf[off..][1..] == Encoding(f) + (key + t);
    RoundTrip(f, key + t);
    assert r[|Encoding(f)|..|Encoding(f)| + |key|] == key;
  }

  // ---------------------------------------------------------------------
  // The prefix-length check as written

  /** Go's `int(x)` on a `uint64`: values from 2^63 up turn negative. */
  function GoInt(x: U64): (i: int)
    ensures x < TWO63 ==> i == x
    ensures x >= TWO63 ==> i < 0
  {
    if x < TWO63 then x else x - TWO64
  }

  datatype DecodeKeyAsWrittenOutcome = Decoded(r: Option<DecodedKey>) | SliceOutOfRange

  /** `decodeKey` as written: `int(prefixLen) > len(prevKey)` is false for a
      prefix length of 2^63 or more, and the `make` and `prevKey[:prefixLen]` after it then panic. */
  function DecodeKeyAsWritten(buf: seq<Byte>, prevKey: seq<Byte>): (r: DecodeKeyAsWrittenOutcome)
  {
    var p := Parse(buf);
    if p.n <= 0 then Decoded(None)
    else
      var rest := buf[p.n..];
      var q := Parse(rest);
      if q.n <= 0 then Decoded(None)
      else
        var rest2 := rest[q.n..];
        var suffixLen := q.val / 8;
        if GoInt(suffixLen) > |rest2| then Decoded(None)
        else if GoInt(p.val) > |prevKey| then Decoded(None)
        else if p.val > |prevKey| then SliceOutOfRange
        else Decoded(Some(DecodedKey(p.n + q.n + suffixLen, prevKey[..p.val] + rest2[..suffixLen], q.val % 8)))
  }

  /** Where the code as written does not panic it agrees with the model. */
  lemma DecodeKeyAsWrittenAgrees(buf: seq<Byte>, prevKey: seq<Byte>)
    ensures DecodeKeyAsWritten(buf, prevKey) == SliceOutOfRange
            || DecodeKeyAsWritten(buf, prevKey) == Decoded(DecodeKey(buf, prevKey))
  {
  }

  /** The input that shows it: a prefix length of 2^63 against an empty
      previous key panics as written and is a format error in the model. */
  lemma HugePrefixLength()
    ensures DecodeKeyAsWritten(Encoding(TWO63) + Encoding(0), []) == SliceOutOfRange
    ensures DecodeKey(Encoding(TWO63) + Encoding(0), []).None?
  {
    var buf := Encoding(TWO63) + Encoding(0);
    RoundTrip(TWO63, Encoding(0));
    assert buf[|Encoding(TWO63)|..] == Encoding(0) + [];
    RoundTrip(0, []);
  }
}
