/** Byte strings, fixed-width unsigned integers and the small pieces of
    arithmetic every other module shares: Go's `uint64` wrap-around, the
    big-endian fixed-width encodings, lexicographic byte order and the
    bitwise or that packs a 3-bit side value under a shifted length. */
module Bytes {

  type Byte = b: int | 0 <= b < 256

  const TWO64: int := 0x1_0000_0000_0000_0000

  type U64 = x: int | 0 <= x < TWO64

  datatype Option<T> = None | Some(value: T)

  /** Go's `a - b` on `uint64`: wraps around modulo 2^64. */
  function Sub64(a: U64, b: U64): (r: U64)
    ensures b <= a ==> r == a - b
    ensures a < b ==> r == a - b + TWO64
  {
    if b <= a then a - b else a - b + TWO64
  }

  /** Go's `a + b` on `uint64`. */
  function Add64(a: U64, b: U64): (r: U64)
    ensures a + b < TWO64 ==> r == a + b
    ensures TWO64 <= a + b ==> r == a + b - TWO64
  {
    if a + b < TWO64 then a + b else a + b - TWO64
  }

  lemma AddSubCancel(last: U64, o: U64)
    ensures Add64(last, Sub64(o, last)) == o
  {
  }

  /** `x` as `width` big-endian bytes, keeping only the low `8*width` bits
      (what `put_u16`, `put_u24` and `binary.BigEndian.PutUint64` store). */
  function BigEndian(x: nat, width: nat): (r: seq<Byte>)
    ensures |r| == width
  {
    if width == 0 then [] else BigEndian(x / 256, width - 1) + [x % 256]
  }

  /** Reads `s` as a big-endian unsigned integer. */
  function FromBigEndian(s: seq<Byte>): (r: nat)
  {
    if s == [] then 0 else FromBigEndian(s[..|s| - 1]) * 256 + s[|s| - 1]
  }

  function Pow256(width: nat): (r: nat)
    ensures r > 0
  {
    if width == 0 then 1 else 256 * Pow256(width - 1)
  }

  function Pow2(k: nat): (p: nat)
    ensures p > 0
  {
    if k == 0 then 1 else 2 * Pow2(k - 1)
  }

  lemma Pow2At64()
    ensures Pow2(64) == TWO64
  {
    assert Pow2(8) == 0x100;
    assert Pow2(16) == 0x1_0000;
    assert Pow2(24) == 0x100_0000;
    assert Pow2(32) == 0x1_0000_0000;
    assert Pow2(40) == 0x100_0000_0000;
    assert Pow2(48) == 0x1_0000_0000_0000;
    assert Pow2(56) == 0x100_0000_0000_0000;
  }

  lemma {:induction false} FromBigEndianBound(s: seq<Byte>)
    ensures FromBigEndian(s) < Pow256(|s|)
  {
    if s != [] {
      FromBigEndianBound(s[..|s| - 1]);
    }
  }

  /** Reading back a fixed-width big-endian field yields the value modulo
      the field's range. */
  lemma {:induction false} BigEndianRoundTrip(x: nat, width: nat)
    ensures FromBigEndian(BigEndian(x, width)) == x % Pow256(width)
  {
    if width > 0 {
      var s := BigEndian(x, width);
      assert s[..|s| - 1] == BigEndian(x / 256, width - 1);
      BigEndianRoundTrip(x / 256, width - 1);
      DivModStep(x, Pow256(width - 1));
    }
  }

  lemma DivModStep(x: nat, p: nat)
    requires p > 0
    ensures (x / 256) % p * 256 + x % 256 == x % (256 * p)
  {
    var q := x / 256;
    var r := x % 256;
    var qq := q / p;
    var qr := q % p;
    assert q * 256 == (qq * p + qr) * 256;
    assert (qq * p + qr) * 256 == qq * (256 * p) + qr * 256;
    assert x == qq * (256 * p) + (qr * 256 + r);
    assert qr * 256 + r < 256 * p by {
      assert qr + 1 <= p;
      assert (qr + 1) * 256 <= p * 256;
    }
    ModUnique(x, 256 * p, qq, qr * 256 + r);
  }

  lemma ModUnique(x: nat, d: nat, a: nat, b: nat)
    requires d > 0 && b < d && x == a * d + b
    ensures x % d == b
  {
    var q, r := x / d, x % d;
    assert (a - q) * d == r - b by {
      assert q * d + r == a * d + b;
      assert (a - q) * d == a * d - q * d;
    }
    if a > q {
      assert (a - q) * d >= d by { MulAtLeast(a - q, d); }
    } else if a < q {
      assert (q - a) * d >= d by { MulAtLeast(q - a, d); }
    }
  }

  lemma MulAtLeast(k: int, d: nat)
    requires k >= 1
    ensures k * d >= d
  {
  }

  /** Strict lexicographic order on byte strings (`slice_compare` < 0,
      Go's string `<`). */
  predicate Less(a: seq<Byte>, b: seq<Byte>)
  {
    if a == [] then b != []
    else if b == [] then false
    else a[0] < b[0] || (a[0] == b[0] && Less(a[1..], b[1..]))
  }

  /** `slice_compare(a, b) >= 0`. */
  predicate AtLeast(a: seq<Byte>, b: seq<Byte>)
  {
    !Less(a, b)
  }

  lemma {:induction false} LessIrreflexive(a: seq<Byte>)
    ensures !Less(a, a)
  {
    if a != [] {
      LessIrreflexive(a[1..]);
    }
  }

  /** A common prefix does not change the order. */
  lemma {:induction false} LessPrefix(p: seq<Byte>, a: seq<Byte>, b: seq<Byte>)
    ensures Less(p + a, p + b) == Less(a, b)
  {
    if p != [] {
      assert (p + a)[0] == p[0] == (p + b)[0];
      assert (p + a)[1..] == p[1..] + a;
      assert (p + b)[1..] == p[1..] + b;
      LessPrefix(p[1..], a, b);
      assert Less(p + a, p + b) == Less((p + a)[1..], (p + b)[1..]);
    } else {
      assert p + a == a && p + b == b;
    }
  }

  /** On two strings of the same length the order is decided by the first
      position where they differ, whatever follows. */
  lemma {:induction false} LessEqualLength(a: seq<Byte>, b: seq<Byte>, ta: seq<Byte>, tb: seq<Byte>)
    requires |a| == |b|
    requires Less(a, b)
    ensures Less(a + ta, b + tb)
  {
    assert a != [] && b != [];
    assert (a + ta)[1..] == a[1..] + ta;
    assert (b + tb)[1..] == b[1..] + tb;
    if a[0] == b[0] {
      LessEqualLength(a[1..], b[1..], ta, tb);
    }
  }

  /** Big-endian encoding of equal width preserves numeric order. */
  lemma {:induction false} BigEndianMonotone(x: nat, y: nat, width: nat)
    requires x < y < Pow256(width)
    ensures Less(BigEndian(x, width), BigEndian(y, width))
  {
    assert width > 0;
    if x / 256 == y / 256 {
      BigEndianLastByte(x / 256, width - 1, x % 256, y % 256);
    } else {
      assert x / 256 < y / 256 < Pow256(width - 1);
      BigEndianMonotone(x / 256, y / 256, width - 1);
      LessEqualLength(BigEndian(x / 256, width - 1), BigEndian(y / 256, width - 1), [x % 256], [y % 256]);
    }
  }

  lemma BigEndianLastByte(h: nat, width: nat, p: Byte, q: Byte)
    requires p < q
    ensures Less(BigEndian(h, width) + [p], BigEndian(h, width) + [q])
  {
    LessPrefix(BigEndian(h, width), [p], [q]);
  }

  /** Bitwise or of two naturals (Go's `|` on `uint64`). */
  function BitOr(a: nat, b: nat): (r: nat)
    decreases a + b
  {
    if a == 0 then b
    else if b == 0 then a
    else 2 * BitOr(a / 2, b / 2) + (if a % 2 == 1 || b % 2 == 1 then 1 else 0)
  }

  /** Or-ing a value below 8 into a multiple of 8 is addition: the 3-bit
      side value lands in the cleared low bits. */
  lemma BitOrLowBits(x: nat, e: nat)
    requires e < 8
    ensures BitOr(8 * x, e) == 8 * x + e
  {
    if x != 0 && e != 0 {
      assert BitOr(8 * x, e) == 2 * BitOr(4 * x, e / 2) + e % 2;
      if e / 2 != 0 {
        assert BitOr(4 * x, e / 2) == 2 * BitOr(2 * x, e / 4) + (e / 2) % 2;
        if e / 4 != 0 {
          assert BitOr(2 * x, e / 4) == 2 * BitOr(x, 0) + (e / 4) % 2;
        }
      }
    }
  }

  /** Length of the longest common prefix (`commonPrefixSize`). */
  function CommonPrefix(a: seq<Byte>, b: seq<Byte>): (n: nat)
    ensures n <= |a| && n <= |b|
    ensures a[..n] == b[..n]
    ensures n < |a| && n < |b| ==> a[n] != b[n]
  {
    if a == [] || b == [] || a[0] != b[0] then 0
    else
      var m := CommonPrefix(a[1..], b[1..]);
      assert a[1..][..m] == b[1..][..m];
      assert a[..m + 1] == [a[0]] + a[1..][..m];
      assert b[..m + 1] == [b[0]] + b[1..][..m];
      1 + m
  }

  /** `slice_compare(a, b)`: negative, zero or positive as `a` sorts
      before, equal to or after `b`. */
  function Compare(a: seq<Byte>, b: seq<Byte>): (c: int)
    ensures c < 0 <==> Less(a, b)
    ensures c == 0 <==> a == b
    ensures c > 0 <==> Less(b, a)
  {
    LessTotal(a, b);
    LessAsymmetric(a, b);
    if Less(a, b) then -1 else if a == b then 0 else 1
  }

  lemma {:induction false} LessAsymmetric(a: seq<Byte>, b: seq<Byte>)
    ensures !(Less(a, b) && Less(b, a))
    ensures a == b ==> !Less(a, b)
  {
    if a != [] && b != [] && a[0] == b[0] {
      LessAsymmetric(a[1..], b[1..]);
    }
    if a == b {
      LessIrreflexive(a);
    }
  }

  /** Any two byte strings are ordered one way or the other, or equal. */
  lemma {:induction false} LessTotal(a: seq<Byte>, b: seq<Byte>)
    ensures Less(a, b) || a == b || Less(b, a)
  {
    if a != [] && b != [] && a[0] == b[0] {
      LessTotal(a[1..], b[1..]);
      if a[1..] == b[1..] {
        assert a == [a[0]] + a[1..] && b == [b[0]] + b[1..];
      }
    }
  }

  lemma {:induction false} LessTransitive(a: seq<Byte>, b: seq<Byte>, c: seq<Byte>)
    requires Less(a, b) && Less(b, c)
    ensures Less(a, c)
  {
    if a != [] && a[0] == b[0] && b[0] == c[0] {
      LessTransitive(a[1..], b[1..], c[1..]);
    }
  }
}
