/** The variable-length unsigned integer of the record format
    (`getVarInt` / `putVarInt`). Every byte carries 7 bits, the high bit
    marks a continuation, and each continuation adds one before shifting,
    `val = ((val + 1) << 7) | (b & 0x7f)`, so every value has exactly one
    encoding. */
module VarInt {
  import opened Bytes

  /** What `getVarInt` returns: the value and the number of bytes read, or
      `(0, -1)` when the buffer holds no complete varint. */
  datatype VarIntResult = VarIntResult(val: U64, n: int)

  const Failed := VarIntResult(0, -1)

  /** The continuation bytes that precede the final 7-bit group when the
      value shifted right by 7 is `w`; `putVarInt` emits them from right to
      left, decrementing before it masks. */
  function Continuation(w: nat): (c: seq<Byte>)
    decreases w
  {
    if w == 0 then [] else Continuation((w - 1) / 128) + [128 + (w - 1) % 128]
  }

  /** The bytes `putVarInt` writes for `v`. */
  function Encoding(v: U64): (e: seq<Byte>)
  {
    Continuation(v / 128) + [v % 128]
  }

  /** One decoding step with Go's `uint64` wrap-around made explicit:
      `((val + 1) << 7) | (b & 0x7f)`. The shifted value has its low seven
      bits clear, so the or is an addition. */
  function Step(val: U64, b: Byte): (r: U64)
  {
    ((val + 1) % TWO64 * 128) % TWO64 + b % 128
  }

  /** The decoder of `getVarInt`, reading from position `ptr` whose 7 low
      bits are already accumulated in `val`. A continuation byte at the end
      of the buffer is a failure (see the finding in the README). */
  function ParseFrom(s: seq<Byte>, ptr: nat, val: U64): (r: VarIntResult)
    requires ptr < |s|
    ensures r == Failed || (ptr < r.n <= |s| && s[r.n - 1] < 128)
    decreases |s| - ptr
  {
    if s[ptr] < 128 then VarIntResult(val, ptr + 1)
    else if ptr + 1 >= |s| then Failed
    else ParseFrom(s, ptr + 1, Step(val, s[ptr + 1]))
  }

  function Parse(s: seq<Byte>): (r: VarIntResult)
    ensures r == Failed || 1 <= r.n <= |s|
  {
    if |s| == 0 then Failed else ParseFrom(s, 0, s[0] % 128)
  }

  /** A successful decode reads at least one and at most `|s|` bytes, and
      stops at the first byte without the continuation bit. */
  lemma ParseBounds(s: seq<Byte>)
    ensures var r := Parse(s);
      r == Failed || (1 <= r.n <= |s| && s[r.n - 1] < 128
                      && forall i :: 0 <= i < r.n - 1 ==> s[i] >= 128)
  {
    if |s| > 0 {
      ParseStopsAtFirst(s, 0, s[0] % 128);
    }
  }

  lemma {:induction false} ParseStopsAtFirst(s: seq<Byte>, ptr: nat, val: U64)
    requires ptr < |s|
    ensures var r := ParseFrom(s, ptr, val);
      r == Failed || (r.n <= |s| && forall i :: ptr <= i < r.n - 1 ==> s[i] >= 128)
    decreases |s| - ptr
  {
    if s[ptr] >= 128 && ptr + 1 < |s| {
      ParseStopsAtFirst(s, ptr + 1, Step(val, s[ptr + 1]));
    }
  }

  // ---------------------------------------------------------------------
  // Shape and length of the encoding

  lemma {:induction false} ContinuationHigh(w: nat)
    ensures forall i :: 0 <= i < |Continuation(w)| ==> Continuation(w)[i] >= 128
    decreases w
  {
    if w != 0 {
      ContinuationHigh((w - 1) / 128);
    }
  }

  function Pow128(k: nat): (p: nat)
    ensures p > 0
  {
    if k == 0 then 1 else 128 * Pow128(k - 1)
  }

  lemma {:induction false} ContinuationShort(w: nat, k: nat)
    requires w < Pow128(k)
    ensures |Continuation(w)| <= k
    decreases w
  {
    if w != 0 {
      assert k > 0;
      assert (w - 1) / 128 < Pow128(k - 1);
      ContinuationShort((w - 1) / 128, k - 1);
    }
  }

  /** Every `uint64` takes between one and ten bytes, all but the last with
      the continuation bit set. */
  lemma EncodingShape(v: U64)
    ensures 1 <= |Encoding(v)| <= 10
    ensures Encoding(v)[|Encoding(v)| - 1] < 128
    ensures forall i :: 0 <= i < |Encoding(v)| - 1 ==> Encoding(v)[i] >= 128
  {
    ContinuationHigh(v / 128);
    assert Pow128(9) == 0x8000_0000_0000_0000 by {
      assert Pow128(3) == 0x20_0000;
      assert Pow128(6) == 0x400_0000_0000;
    }
    ContinuationShort(v / 128, 9);
  }

  // ---------------------------------------------------------------------
  // Round trip

  /** The accumulator of the decoder, without wrap-around, after it has
      read `bs`; the empty prefix stands for `-1`, so that the first byte
      contributes `(−1 + 1) * 128 + b`. */
  function Acc(bs: seq<Byte>): (a: int)
    ensures a >= -1
    ensures bs != [] ==> a >= 0
  {
    if bs == [] then -1 else (Acc(bs[..|bs| - 1]) + 1) * 128 + bs[|bs| - 1] % 128
  }

  lemma {:induction false} AccContinuation(w: nat)
    ensures Acc(Continuation(w)) == w - 1
    decreases w
  {
    if w != 0 {
      var c := Continuation(w);
      assert c[..|c| - 1] == Continuation((w - 1) / 128);
      AccContinuation((w - 1) / 128);
    }
  }

  lemma {:induction false} AccMonotone(s: seq<Byte>, j: nat, m: nat)
    requires j <= m <= |s|
    ensures Acc(s[..j]) <= Acc(s[..m])
    decreases m - j
  {
    if j < m {
      AccMonotone(s, j, m - 1);
      assert s[..m][..m - 1] == s[..m - 1];
    }
  }

  /** From position `j`, with the accumulator for `s[..j + 1]`, the decoder
      runs through the continuation bytes up to the final byte at `m`. */
  lemma {:induction false} ParseFromRun(s: seq<Byte>, m: nat, j: nat, val: U64)
    requires j <= m < |s|
    requires forall i :: j <= i < m ==> s[i] >= 128
    requires s[m] < 128
    requires val == Acc(s[..j + 1]) && Acc(s[..m + 1]) < TWO64
    ensures ParseFrom(s, j, val) == VarIntResult(Acc(s[..m + 1]), m + 1)
    decreases m - j
  {
    if j < m {
      AccLast(s, j + 1);
      AccMonotone(s, j + 2, m + 1);
      StepNoWrap(val, s[j + 1]);
      ParseFromRun(s, m, j + 1, Step(val, s[j + 1]));
    }
  }

  lemma AccLast(s: seq<Byte>, k: nat)
    requires k < |s|
    ensures Acc(s[..k + 1]) == (Acc(s[..k]) + 1) * 128 + s[k] % 128
  {
    assert s[..k + 1][..k] == s[..k];
  }

  lemma StepNoWrap(a: U64, b: Byte)
    requires (a + 1) * 128 + b % 128 < TWO64
    ensures Step(a, b) == (a + 1) * 128 + b % 128
  {
  }

  lemma AccEncoding(v: U64)
    ensures Acc(Encoding(v)) == v
  {
    var e := Encoding(v);
    assert e[..|e| - 1] == Continuation(v / 128);
    AccContinuation(v / 128);
  }

  lemma AccFirst(s: seq<Byte>)
    requires |s| > 0
    ensures Acc(s[..1]) == s[0] % 128
  {
    assert s[..1][..0] == [];
  }

  /** `getVarInt` reads back exactly what `putVarInt` wrote, whatever
      follows it in the buffer. */
  lemma RoundTrip(v: U64, rest: seq<Byte>)
    ensures Parse(Encoding(v) + rest) == VarIntResult(v, |Encoding(v)|)
  {
    var e := Encoding(v);
    var s := e + rest;
    var m := |e| - 1;
    EncodingShape(v);
    AccEncoding(v);
    assert s[..m + 1] == e;
    assert forall i :: 0 <= i < m ==> s[i] == e[i];
    AccFirst(s);
    ParseFromRun(s, m, 0, s[0] % 128);
  }

  /** Two values with the same encoding are equal, so the encoding is a
      function the decoder inverts. */
  lemma EncodingInjective(v: U64, u: U64)
    requires Encoding(v) == Encoding(u)
    ensures v == u
  {
    RoundTrip(v, []);
    RoundTrip(u, []);
  }

  // ---------------------------------------------------------------------
  // The imperative coders

  /** The first half of `putVarInt`: the encoding of `val` built from the
      right in a 10-byte scratch array, ending at its last byte. */
  method ScratchEncoding(val: U64) returns (dest: array<Byte>, start: nat)
    ensures fresh(dest) && dest.Length == 10
    ensures start <= 10 && dest[start..] == Encoding(val)
  {
    EncodingShape(val);
    dest := new Byte[10];
    var i: int := 9;
    dest[i] := val % 128;
    i := i - 1;
    var w: nat := val / 128;
    while w != 0
      invariant -1 <= i <= 8
      invariant Continuation(w) + dest[i + 1..] == Encoding(val)
      decreases w
    {
      assert |Continuation(w)| >= 1;
      ghost var tail := dest[i + 1..];
      ghost var c := Continuation((w - 1) / 128);
      assert Continuation(w) == c + [128 + (w - 1) % 128];
      w := w - 1;
      dest[i] := 128 + w % 128;
      assert dest[i..] == [128 + w % 128] + tail;
      i := i - 1;
      w := w / 128;
      assert Continuation(w) + dest[i + 1..] == c + [dest[i + 1]] + tail;
    }
    start := i + 1;
  }

  /** `putVarInt(buf[off:], val)`: copies the scratch encoding out only
      when it fits. */
  method PutVarInt(buf: array<Byte>, off: nat, val: U64) returns (n: nat, ok: bool)
    requires off <= buf.Length
    modifies buf
    ensures ok <==> |Encoding(val)| <= buf.Length - off
    ensures ok ==> n == |Encoding(val)| && buf[off..off + n] == Encoding(val)
    ensures !ok ==> n == 0
    ensures buf[..off] == old(buf[..off]) && buf[off + n..] == old(buf[off + n..])
  {
    var dest, start := ScratchEncoding(val);
    n := 10 - start;
    if n > buf.Length - off {
      return 0, false;
    }
    forall k | 0 <= k < n {
      buf[off + k] := dest[start + k];
    }
    assert buf[off..off + n] == dest[start..];
    ok := true;
  }

  /** `getVarInt(buf)`. */
  method GetVarInt(buf: seq<Byte>) returns (val: U64, n: int)
    ensures VarIntResult(val, n) == Parse(buf)
    ensures |buf| == 0 ==> val == 0 && n == -1
  {
    if |buf| == 0 {
      return 0, -1;
    }
    var ptr := 0;
    val := buf[ptr] % 128;
    while buf[ptr] >= 128
      invariant 0 <= ptr < |buf|
      invariant ParseFrom(buf, ptr, val) == Parse(buf)
      decreases |buf| - ptr
    {
      ptr := ptr + 1;
      if ptr >= |buf| {
        return 0, -1;
      }
      val := Step(val, buf[ptr]);
    }
    n := ptr + 1;
  }

  // ---------------------------------------------------------------------
  // The truncation guard as written

  /** What `getVarInt` does as written: its guard `ptr > len(buf)` lets
      `ptr == len(buf)` through, and the next `buf[ptr]` is an index out of
      range. */
  datatype AsWrittenOutcome = Returned(r: VarIntResult) | IndexOutOfRange

  function ParseFromAsWritten(s: seq<Byte>, ptr: nat, val: U64): (r: AsWrittenOutcome)
    requires ptr < |s|
    decreases |s| - ptr
  {
    if s[ptr] < 128 then Returned(VarIntResult(val, ptr + 1))
    else if ptr + 1 > |s| then Returned(Failed)
    else if ptr + 1 == |s| then IndexOutOfRange
    else ParseFromAsWritten(s, ptr + 1, Step(val, s[ptr + 1]))
  }

  function GetVarIntAsWritten(s: seq<Byte>): (r: AsWrittenOutcome)
  {
    if |s| == 0 then Returned(Failed) else ParseFromAsWritten(s, 0, s[0] % 128)
  }

  lemma {:induction false} AsWrittenFromAgrees(s: seq<Byte>, ptr: nat, val: U64)
    requires ptr < |s|
    ensures ParseFromAsWritten(s, ptr, val) == IndexOutOfRange
            || ParseFromAsWritten(s, ptr, val) == Returned(ParseFrom(s, ptr, val))
    ensures ParseFromAsWritten(s, ptr, val) != Returned(Failed)
    ensures ParseFromAsWritten(s, ptr, val) == IndexOutOfRange <==> ParseFrom(s, ptr, val) == Failed
    decreases |s| - ptr
  {
    if s[ptr] >= 128 && ptr + 1 < |s| {
      AsWrittenFromAgrees(s, ptr + 1, Step(val, s[ptr + 1]));
    }
  }

  /** As written, the truncation guard never fires: on a non-empty buffer
      the code either decodes as the corrected model does or indexes out of
      range exactly where the corrected model reports `(0, -1)`. */
  lemma AsWrittenGuardNeverFires(s: seq<Byte>)
    requires |s| > 0
    ensures GetVarIntAsWritten(s) != Returned(Failed)
    ensures GetVarIntAsWritten(s) == IndexOutOfRange <==> Parse(s) == Failed
    ensures GetVarIntAsWritten(s) != IndexOutOfRange ==> GetVarIntAsWritten(s) == Returned(Parse(s))
  {
    AsWrittenFromAgrees(s, 0, s[0] % 128);
  }

  /** The input that shows it: a single continuation byte. */
  lemma TrailingContinuationByte()
    ensures GetVarIntAsWritten([0x80]) == IndexOutOfRange
    ensures Parse([0x80]) == Failed
  {
  }
}
