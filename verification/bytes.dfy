/** Fixed-width unsigned integers, their big-endian byte encoding (Go's
    `encoding/binary.BigEndian`) and byte-lexicographic order (Go's
    `bytes.Compare`). Everything the key spaces promise about sort order rests on
    the lemmas of this module. */
module Bytes {

  type byte = b: int | 0 <= b < 0x100
  type uint16 = x: int | 0 <= x < 0x1_0000
  type uint32 = x: int | 0 <= x < 0x1_0000_0000
  type uint64 = x: int | 0 <= x < 0x1_0000_0000_0000_0000

  /** 256 to the power n: the number of values that fit in n bytes. */
  function Pow256(n: nat): (r: nat)
    ensures r > 0
  {
    if n == 0 then 1 else 256 * Pow256(n - 1)
  }

  lemma Pow256Widths()
    ensures Pow256(2) == 0x1_0000
    ensures Pow256(4) == 0x1_0000_0000
    ensures Pow256(8) == 0x1_0000_0000_0000_0000
  {
  }

  /** n zero bytes, the contents of a freshly made Go byte slice. */
  function Zeros(n: nat): (r: seq<byte>)
    ensures |r| == n
    ensures forall i :: 0 <= i < n ==> r[i] == 0
  {
    seq(n, _ => 0)
  }

  /** The w-byte big-endian encoding of x, most significant byte first. */
  function BigEndian(x: nat, w: nat): (r: seq<byte>)
    requires x < Pow256(w)
    ensures |r| == w
  {
    if w == 0 then [] else BigEndian(x / 256, w - 1) + [x % 256]
  }

  /** The number a big-endian byte string denotes. */
  function FromBigEndian(s: seq<byte>): (r: nat)
    ensures r < Pow256(|s|)
  {
    if |s| == 0 then 0 else FromBigEndian(s[..|s| - 1]) * 256 + s[|s| - 1]
  }

  /** Decoding an encoding gives the number back. */
  lemma {:induction false} FromBigEndianOfBigEndian(x: nat, w: nat)
    requires x < Pow256(w)
    ensures FromBigEndian(BigEndian(x, w)) == x
  {
    if w > 0 {
      var s := BigEndian(x, w);
      assert s[..w - 1] == BigEndian(x / 256, w - 1);
      FromBigEndianOfBigEndian(x / 256, w - 1);
    }
  }

  /** Encoding a decoded byte string at its own width gives the bytes back. */
  lemma {:induction false} BigEndianOfFromBigEndian(s: seq<byte>)
    ensures BigEndian(FromBigEndian(s), |s|) == s
  {
    if |s| > 0 {
      var f := FromBigEndian(s[..|s| - 1]);
      var x := f * 256 + s[|s| - 1];
      assert x / 256 == f && x % 256 == s[|s| - 1];
      BigEndianOfFromBigEndian(s[..|s| - 1]);
      assert s == s[..|s| - 1] + [s[|s| - 1]];
    }
  }

  /** Equal-width encodings are equal exactly when the numbers are. */
  lemma BigEndianInjective(x: nat, y: nat, w: nat)
    requires x < Pow256(w) && y < Pow256(w)
    ensures BigEndian(x, w) == BigEndian(y, w) <==> x == y
  {
    if BigEndian(x, w) == BigEndian(y, w) {
      FromBigEndianOfBigEndian(x, w);
      FromBigEndianOfBigEndian(y, w);
    }
  }

  /** The 8-byte big-endian form of a uint64 (`binary.BigEndian.PutUint64`). */
  function Uint64Bytes(x: uint64): (r: seq<byte>)
    ensures |r| == 8
    ensures FromBigEndian(r) == x
  {
    Pow256Widths();
    FromBigEndianOfBigEndian(x, 8);
    BigEndian(x, 8)
  }

  /** The uint64 an 8-byte big-endian string denotes (`binary.BigEndian.Uint64`). */
  function Uint64FromBytes(s: seq<byte>): (r: uint64)
    requires |s| == 8
    ensures Uint64Bytes(r) == s
  {
    Pow256Widths();
    BigEndianOfFromBigEndian(s);
    FromBigEndian(s)
  }

  lemma Uint64RoundTrip(x: uint64)
    ensures Uint64FromBytes(Uint64Bytes(x)) == x
  {
  }

  lemma Uint64Order(x: uint64, y: uint64)
    ensures x < y <==> LexLess(Uint64Bytes(x), Uint64Bytes(y))
  {
    Pow256Widths();
    BigEndianOrder(x, y, 8);
  }

  /** `a` sorts strictly before `b` byte-lexicographically; a proper prefix sorts
      first. This is `bytes.Compare(a, b) < 0`, the order of a sorted key-value
      store. */
  predicate LexLess(a: seq<byte>, b: seq<byte>)
  {
    if |a| == 0 then |b| > 0
    else |b| > 0 && (a[0] < b[0] || (a[0] == b[0] && LexLess(a[1..], b[1..])))
  }

  lemma {:induction false} LexLessIrreflexive(a: seq<byte>)
    ensures !LexLess(a, a)
  {
    if |a| > 0 {
      LexLessIrreflexive(a[1..]);
    }
  }

  /** Comparing two concatenations whose first parts have equal length: the first
      parts decide unless they are equal, in which case the second parts do. */
  lemma {:induction false} LexLessConcat(a: seq<byte>, c: seq<byte>, b: seq<byte>, d: seq<byte>)
    requires |a| == |b|
    ensures LexLess(a + c, b + d) <==> LexLess(a, b) || (a == b && LexLess(c, d))
  {
    if |a| == 0 {
      assert a + c == c && b + d == d;
    } else {
      assert (a + c)[1..] == a[1..] + c;
      assert (b + d)[1..] == b[1..] + d;
      LexLessConcat(a[1..], c, b[1..], d);
      if a[1..] == b[1..] && a[0] == b[0] {
        assert a == [a[0]] + a[1..] && b == [b[0]] + b[1..];
      }
      if a == b {
        LexLessIrreflexive(a);
      }
    }
  }

  /** Sequences with different first bytes sort by that byte alone. */
  lemma LexLessByHead(a: seq<byte>, b: seq<byte>)
    requires |a| > 0 && |b| > 0 && a[0] != b[0]
    ensures LexLess(a, b) <==> a[0] < b[0]
  {
  }

  /** Big-endian encoding preserves numeric order: for equal widths, byte order
      and numeric order agree in both directions. */
  lemma {:induction false} BigEndianOrder(x: nat, y: nat, w: nat)
    requires x < Pow256(w) && y < Pow256(w)
    ensures x < y <==> LexLess(BigEndian(x, w), BigEndian(y, w))
  {
    if w == 0 {
    } else {
      var hx, hy := BigEndian(x / 256, w - 1), BigEndian(y / 256, w - 1);
      LexLessConcat(hx, [x % 256], hy, [y % 256]);
      assert LexLess([x % 256], [y % 256]) <==> x % 256 < y % 256 by {
        assert [x % 256][1..] == [] && [y % 256][1..] == [];
      }
      BigEndianOrder(x / 256, y / 256, w - 1);
      BigEndianInjective(x / 256, y / 256, w - 1);
    }
  }
}
