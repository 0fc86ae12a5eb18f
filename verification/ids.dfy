/** The compact server-local identifiers of dvid/data.go and their fixed-width
    big-endian encodings, plus the rendering of a generated 16-byte node UUID as
    32 lower-case hexadecimal characters. */
module Ids {
  import opened Wrappers
  import opened Bytes

  const LocalIDSize: nat := 2
  const LocalID32Size: nat := 4

  const MaxLocalID := 0xFFFF
  const MaxLocalID32 := 0xFFFF_FFFF

  const MaxInstanceID := MaxLocalID32
  const MaxRepoID := MaxLocalID32
  const MaxVersionID := MaxLocalID32

  const InstanceIDSize: nat := 4
  const RepoIDSize: nat := 4
  const VersionIDSize: nat := 4

  /** A 16-bit local id. */
  newtype LocalID = x: int | 0 <= x <= MaxLocalID

  /** A 32-bit local id. */
  newtype LocalID32 = x: int | 0 <= x <= MaxLocalID32

  /** Distinct 32-bit ids for data instances, repositories and versions; the
      types keep them from being confused with one another. */
  newtype InstanceID = x: int | 0 <= x <= MaxInstanceID
  newtype RepoID = x: int | 0 <= x <= MaxRepoID
  newtype VersionID = x: int | 0 <= x <= MaxVersionID

  // ---- LocalID ----

  function LocalIDBytes(id: LocalID): (r: seq<byte>)
    ensures |r| == LocalIDSize
    ensures FromBigEndian(r) == id as int
  {
    Pow256Widths();
    FromBigEndianOfBigEndian(id as int, LocalIDSize);
    BigEndian(id as int, LocalIDSize)
  }

  /** Reads a LocalID from the head of `b` and reports the bytes consumed. The
      caller must supply at least LocalIDSize bytes; nothing is checked. */
  function LocalIDFromBytes(b: seq<byte>): (r: (LocalID, int))
    requires |b| >= LocalIDSize
    ensures r.1 == LocalIDSize
    ensures LocalIDBytes(r.0) == b[..LocalIDSize]
  {
    var head := b[..LocalIDSize];
    Pow256Widths();
    BigEndianOfFromBigEndian(head);
    (FromBigEndian(head) as LocalID, LocalIDSize)
  }

  lemma LocalIDRoundTrip(id: LocalID)
    ensures LocalIDFromBytes(LocalIDBytes(id)) == (id, LocalIDSize)
  {
    var d := LocalIDFromBytes(LocalIDBytes(id));
    BigEndianInjective(d.0 as int, id as int, LocalIDSize);
  }

  lemma LocalIDOrder(x: LocalID, y: LocalID)
    ensures x < y <==> LexLess(LocalIDBytes(x), LocalIDBytes(y))
  {
    Pow256Widths();
    BigEndianOrder(x as int, y as int, LocalIDSize);
  }

  // ---- LocalID32 ----

  function LocalID32Bytes(id: LocalID32): (r: seq<byte>)
    ensures |r| == LocalID32Size
    ensures FromBigEndian(r) == id as int
  {
    Pow256Widths();
    FromBigEndianOfBigEndian(id as int, LocalID32Size);
    BigEndian(id as int, LocalID32Size)
  }

  /** Reads a LocalID32 from the head of `b` and reports the bytes consumed. */
  function LocalID32FromBytes(b: seq<byte>): (r: (LocalID32, int))
    requires |b| >= LocalID32Size
    ensures r.1 == LocalID32Size
    ensures LocalID32Bytes(r.0) == b[..LocalID32Size]
  {
    var head := b[..LocalID32Size];
    Pow256Widths();
    BigEndianOfFromBigEndian(head);
    (FromBigEndian(head) as LocalID32, LocalID32Size)
  }

  lemma LocalID32RoundTrip(id: LocalID32)
    ensures LocalID32FromBytes(LocalID32Bytes(id)) == (id, LocalID32Size)
  {
    var d := LocalID32FromBytes(LocalID32Bytes(id));
    BigEndianInjective(d.0 as int, id as int, LocalID32Size);
  }

  lemma LocalID32Order(x: LocalID32, y: LocalID32)
    ensures x < y <==> LexLess(LocalID32Bytes(x), LocalID32Bytes(y))
  {
    Pow256Widths();
    BigEndianOrder(x as int, y as int, LocalID32Size);
  }

  // ---- InstanceID ----

  function InstanceIDBytes(id: InstanceID): (r: seq<byte>)
    ensures |r| == InstanceIDSize
    ensures FromBigEndian(r) == id as int
  {
    Pow256Widths();
    FromBigEndianOfBigEndian(id as int, LocalID32Size);
    BigEndian(id as int, LocalID32Size)
  }

  /** Reads an InstanceID from the head of `b`; at least 4 bytes are assumed. */
  function InstanceIDFromBytes(b: seq<byte>): (r: InstanceID)
    requires |b| >= LocalID32Size
    ensures InstanceIDBytes(r) == b[..InstanceIDSize]
  {
    var head := b[..LocalID32Size];
    Pow256Widths();
    BigEndianOfFromBigEndian(head);
    FromBigEndian(head) as InstanceID
  }

  lemma InstanceIDRoundTrip(id: InstanceID)
    ensures InstanceIDFromBytes(InstanceIDBytes(id)) == id
  {
    BigEndianInjective(InstanceIDFromBytes(InstanceIDBytes(id)) as int, id as int, InstanceIDSize);
  }

  lemma InstanceIDOrder(x: InstanceID, y: InstanceID)
    ensures x < y <==> LexLess(InstanceIDBytes(x), InstanceIDBytes(y))
  {
    Pow256Widths();
    BigEndianOrder(x as int, y as int, InstanceIDSize);
  }

  // ---- RepoID ----

  function RepoIDBytes(id: RepoID): (r: seq<byte>)
    ensures |r| == RepoIDSize
    ensures FromBigEndian(r) == id as int
  {
    Pow256Widths();
    FromBigEndianOfBigEndian(id as int, LocalID32Size);
    BigEndian(id as int, LocalID32Size)
  }

  /** Reads a RepoID from the head of `b`; at least 4 bytes are assumed. */
  function RepoIDFromBytes(b: seq<byte>): (r: RepoID)
    requires |b| >= LocalID32Size
    ensures RepoIDBytes(r) == b[..RepoIDSize]
  {
    var head := b[..LocalID32Size];
    Pow256Widths();
    BigEndianOfFromBigEndian(head);
    FromBigEndian(head) as RepoID
  }

  lemma RepoIDRoundTrip(id: RepoID)
    ensures RepoIDFromBytes(RepoIDBytes(id)) == id
  {
    BigEndianInjective(RepoIDFromBytes(RepoIDBytes(id)) as int, id as int, RepoIDSize);
  }

  lemma RepoIDOrder(x: RepoID, y: RepoID)
    ensures x < y <==> LexLess(RepoIDBytes(x), RepoIDBytes(y))
  {
    Pow256Widths();
    BigEndianOrder(x as int, y as int, RepoIDSize);
  }

  // ---- VersionID ----

  function VersionIDBytes(id: VersionID): (r: seq<byte>)
    ensures |r| == VersionIDSize
    ensures FromBigEndian(r) == id as int
  {
    Pow256Widths();
    FromBigEndianOfBigEndian(id as int, LocalID32Size);
    BigEndian(id as int, LocalID32Size)
  }

  /** Reads a VersionID from the head of `b`; at least 4 bytes are assumed. */
  function VersionIDFromBytes(b: seq<byte>): (r: VersionID)
    requires |b| >= LocalID32Size
    ensures VersionIDBytes(r) == b[..VersionIDSize]
  {
    var head := b[..LocalID32Size];
    Pow256Widths();
    BigEndianOfFromBigEndian(head);
    FromBigEndian(head) as VersionID
  }

  lemma VersionIDRoundTrip(id: VersionID)
    ensures VersionIDFromBytes(VersionIDBytes(id)) == id
  {
    BigEndianInjective(VersionIDFromBytes(VersionIDBytes(id)) as int, id as int, VersionIDSize);
  }

  lemma VersionIDOrder(x: VersionID, y: VersionID)
    ensures x < y <==> LexLess(VersionIDBytes(x), VersionIDBytes(y))
  {
    Pow256Widths();
    BigEndianOrder(x as int, y as int, VersionIDSize);
  }

  /** Every decoder reads only the head of its slice: bytes after the
      identifier's width never change the result. */
  lemma DecodersIgnoreTail(b: seq<byte>, tail: seq<byte>)
    requires |b| >= LocalIDSize
    ensures LocalIDFromBytes(b + tail) == LocalIDFromBytes(b)
    ensures |b| >= LocalID32Size ==> LocalID32FromBytes(b + tail) == LocalID32FromBytes(b)
    ensures |b| >= LocalID32Size ==> InstanceIDFromBytes(b + tail) == InstanceIDFromBytes(b)
    ensures |b| >= LocalID32Size ==> RepoIDFromBytes(b + tail) == RepoIDFromBytes(b)
    ensures |b| >= LocalID32Size ==> VersionIDFromBytes(b + tail) == VersionIDFromBytes(b)
  {
    assert (b + tail)[..LocalIDSize] == b[..LocalIDSize];
    if |b| >= LocalID32Size {
      assert (b + tail)[..LocalID32Size] == b[..LocalID32Size];
    }
  }

  // ---- UUID ----

  /** A node identifier: 32 hexadecimal characters, or "" when invalid. */
  type UUID = string

  const NilUUID: UUID := ""

  predicate IsLowerHexDigit(c: char)
  {
    '0' <= c <= '9' || 'a' <= c <= 'f'
  }

  /** The lower-case hexadecimal digit for a value below 16. */
  function HexDigit(n: int): (c: char)
    requires 0 <= n < 16
    ensures IsLowerHexDigit(c)
  {
    if n < 10 then ('0' as int + n) as char else ('a' as int + n - 10) as char
  }

  /** The value of a lower-case hexadecimal digit. */
  function HexValue(c: char): (r: Option<int>)
    ensures r.Some? <==> IsLowerHexDigit(c)
    ensures r.Some? ==> 0 <= r.value < 16 && HexDigit(r.value) == c
  {
    if '0' <= c <= '9' then Some(c as int - '0' as int)
    else if 'a' <= c <= 'f' then Some(c as int - 'a' as int + 10)
    else None
  }

  /** Two lower-case hexadecimal digits per byte, high nibble first: what
      `fmt.Sprintf("%x", bytes)` prints. */
  function Hex(bs: seq<byte>): (r: string)
    ensures |r| == 2 * |bs|
    ensures forall i :: 0 <= i < |r| ==> IsLowerHexDigit(r[i])
  {
    if |bs| == 0 then "" else [HexDigit(bs[0] / 16), HexDigit(bs[0] % 16)] + Hex(bs[1..])
  }

  /** The bytes a string of lower-case hexadecimal digit pairs spells. */
  function ParseHex(s: string): Option<seq<byte>>
  {
    if |s| == 0 then Some([])
    else if |s| == 1 then None
    else match (HexValue(s[0]), HexValue(s[1]), ParseHex(s[2..]))
      case (Some(hi), Some(lo), Some(rest)) => Some([hi * 16 + lo] + rest)
      case _ => None
  }

  lemma {:induction false} ParseHexOfHex(bs: seq<byte>)
    ensures ParseHex(Hex(bs)) == Some(bs)
  {
    if |bs| > 0 {
      var s := Hex(bs);
      assert s[2..] == Hex(bs[1..]);
      ParseHexOfHex(bs[1..]);
      assert bs == [bs[0] / 16 * 16 + bs[0] % 16] + bs[1..];
    }
  }

  /** The node UUID made from a generator result (`None` when the generator
      returned nil): the 16 bytes as 32 lower-case hexadecimal characters, or
      NilUUID when there is no result or it is not 16 bytes long. */
  function NewUUID(generated: Option<seq<byte>>): (r: UUID)
    ensures r == NilUUID <==> generated.None? || |generated.value| != 16
    ensures r != NilUUID ==> |r| == 32
    ensures r != NilUUID ==> forall i :: 0 <= i < |r| ==> IsLowerHexDigit(r[i])
    ensures r != NilUUID ==> ParseHex(r) == Some(generated.value)
  {
    if generated.None? || |generated.value| != 16 then NilUUID
    else
      ParseHexOfHex(generated.value);
      Hex(generated.value)
  }

  /** Different generator results of 16 bytes never render to the same UUID. */
  lemma NewUUIDInjective(a: seq<byte>, b: seq<byte>)
    requires |a| == 16 && |b| == 16
    ensures NewUUID(Some(a)) == NewUUID(Some(b)) <==> a == b
  {
  }
}
