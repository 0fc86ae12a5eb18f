/** The type-partitioned key spaces of datatype/voxels/keys.go. Every index
    starts with a one-byte KeyType tag followed by a fixed layout of big-endian
    uint64 fields, 8-byte label fields and block-coordinate bytes. The decoders
    work on index bytes: extracting the index from a full storage key is done by
    the storage layer beforehand, and its error is passed back unchanged. */
module Keys {
  import opened Wrappers
  import opened Bytes

  /** The first byte of every index. Only 0..7 are declared; any other value is
      a corrupt key. */
  newtype KeyType = t: int | 0 <= t < 0x100

  const KeyUnknown: KeyType := 0
  const KeyVoxelBlock: KeyType := 1
  const KeyForwardMap: KeyType := 2
  const KeyInverseMap: KeyType := 3
  const KeySpatialMap: KeyType := 4
  const KeyLabelSpatialMap: KeyType := 5
  const KeyLabelSizes: KeyType := 6
  const KeyLabelSurface: KeyType := 7

  /** The tag byte of a key type, `byte(t)` in the source. */
  function Tag(t: KeyType): byte
  {
    t as int
  }

  const UnknownKeyTypeName := "Unknown Key Type"

  function KeyTypeString(t: KeyType): (r: string)
    ensures r == UnknownKeyTypeName <==> t == KeyUnknown || t > KeyLabelSurface
  {
    if t == KeyVoxelBlock then "Voxel block"
    else if t == KeyForwardMap then "Forward Label Map"
    else if t == KeyInverseMap then "Inverse Label Map"
    else if t == KeySpatialMap then "Spatial Index to Labels Map"
    else if t == KeyLabelSpatialMap then "Forward Label to Spatial Index Map"
    else if t == KeyLabelSizes then "Forward Label sorted by volume"
    else if t == KeyLabelSurface then "Forward Label Surface"
    else UnknownKeyTypeName
  }

  /** Each declared key type has a name of its own. */
  lemma KeyTypeNamesDistinct(t1: KeyType, t2: KeyType)
    requires KeyVoxelBlock <= t1 <= KeyLabelSurface && KeyVoxelBlock <= t2 <= KeyLabelSurface
    ensures KeyTypeString(t1) == KeyTypeString(t2) <==> t1 == t2
  {
  }

  /** Why a decoder refused an index. */
  datatype KeyError =
    | KeyTypeMismatch(expected: KeyType, actual: byte)
    | BadBlockIndex(reason: string)

  /** `dst` after Go's `copy(dst, src)`: the first min(|dst|, |src|) bytes come
      from `src`, the rest keep their old value. */
  function CopyInto(dst: seq<byte>, src: seq<byte>): (r: seq<byte>)
    ensures |r| == |dst|
    ensures forall i :: 0 <= i < |r| ==> r[i] == if i < |src| then src[i] else dst[i]
  {
    if |src| >= |dst| then src[..|dst|] else src + dst[|src|..]
  }

  /** The 8-byte label field of a new index holding `lbl`: a longer label is
      cut to its first 8 bytes, a shorter one is padded with zeros. */
  function LabelField(lbl: seq<byte>): (r: seq<byte>)
    ensures |r| == 8
    ensures |lbl| >= 8 ==> r == lbl[..8]
  {
    CopyInto(Zeros(8), lbl)
  }

  /** The label field of a new spatial map index; a nil label leaves it zero. */
  function SpatialLabelField(lbl: Option<seq<byte>>): (r: seq<byte>)
    ensures |r| == 8
  {
    match lbl
    case None => Zeros(8)
    case Some(l) => LabelField(l)
  }

  // ---- Voxel blocks: tag + block coordinate ----

  function NewVoxelBlockIndexByCoord(blockCoord: seq<byte>): (r: seq<byte>)
    ensures |r| == 1 + |blockCoord|
    ensures r[0] == Tag(KeyVoxelBlock)
    ensures r[1..] == blockCoord
  {
    [Tag(KeyVoxelBlock)] + blockCoord
  }

  /** The block index's bytes are taken as they are; their scheme (ZYX, CZYX)
      is not interpreted here. */
  function NewVoxelBlockIndex(blockIndex: seq<byte>): (r: seq<byte>)
    ensures |r| == 1 + |blockIndex|
    ensures r[0] == Tag(KeyVoxelBlock)
    ensures r[1..] == blockIndex
  {
    NewVoxelBlockIndexByCoord(blockIndex)
  }

  /** Checks the tag, then hands the coordinate bytes to the block-index parser
      `zyxFromBytes`, whose errors are reported as BadBlockIndex. */
  function DecodeVoxelBlockIndex<Z>(index: seq<byte>, zyxFromBytes: seq<byte> -> Result<Z, string>): (r: Result<Z, KeyError>)
    requires |index| >= 1
    ensures r.Failure? && r.error.KeyTypeMismatch? <==> index[0] != Tag(KeyVoxelBlock)
    ensures r.Failure? && r.error.KeyTypeMismatch? ==> r.error.actual == index[0] && r.error.expected == KeyVoxelBlock
    ensures index[0] == Tag(KeyVoxelBlock) ==> (r.Success? <==> zyxFromBytes(index[1..]).Success?)
    ensures r.Success? ==> r.value == zyxFromBytes(index[1..]).value
    ensures r.Failure? && r.error.BadBlockIndex? ==> r.error.reason == zyxFromBytes(index[1..]).error
  {
    if index[0] != Tag(KeyVoxelBlock) then Failure(KeyTypeMismatch(KeyVoxelBlock, index[0]))
    else match zyxFromBytes(index[1..])
      case Success(zyx) => Success(zyx)
      case Failure(e) => Failure(BadBlockIndex(e))
  }

  /** Decoding a voxel block index gives the parser exactly the block bytes the
      index was built from. */
  lemma VoxelBlockRoundTrip<Z>(blockIndex: seq<byte>, zyxFromBytes: seq<byte> -> Result<Z, string>)
    ensures zyxFromBytes(blockIndex).Success? ==>
      DecodeVoxelBlockIndex(NewVoxelBlockIndex(blockIndex), zyxFromBytes) == Success(zyxFromBytes(blockIndex).value)
    ensures zyxFromBytes(blockIndex).Failure? ==>
      DecodeVoxelBlockIndex(NewVoxelBlockIndex(blockIndex), zyxFromBytes) == Failure(BadBlockIndex(zyxFromBytes(blockIndex).error))
  {
  }

  // ---- Forward and inverse label maps: a+b and b+a ----

  /** Index = a+b: the original label's 8-byte field, then the mapped label. */
  function NewForwardMapIndex(lbl: seq<byte>, mapping: uint64): (r: seq<byte>)
    ensures |r| == 17
    ensures r[0] == Tag(KeyForwardMap)
    ensures r[1..9] == LabelField(lbl)
    ensures Uint64FromBytes(r[9..17]) == mapping
  {
    Uint64RoundTrip(mapping);
    var r := [Tag(KeyForwardMap)] + LabelField(lbl) + Uint64Bytes(mapping);
    assert r[9..17] == Uint64Bytes(mapping);
    r
  }

  /** Index = b+a: the mapped label, then the original label's 8-byte field. */
  function NewInverseMapIndex(lbl: seq<byte>, mapping: uint64): (r: seq<byte>)
    ensures |r| == 17
    ensures r[0] == Tag(KeyInverseMap)
    ensures Uint64FromBytes(r[1..9]) == mapping
    ensures r[9..17] == LabelField(lbl)
  {
    Uint64RoundTrip(mapping);
    [Tag(KeyInverseMap)] + Uint64Bytes(mapping) + LabelField(lbl)
  }

  /** The inverse map index holds the forward index's two fields swapped, so a
      mapping can be found from either side. */
  lemma ForwardInverseSwap(lbl: seq<byte>, mapping: uint64)
    ensures NewInverseMapIndex(lbl, mapping)[1..9] == NewForwardMapIndex(lbl, mapping)[9..17]
    ensures NewInverseMapIndex(lbl, mapping)[9..17] == NewForwardMapIndex(lbl, mapping)[1..9]
  {
  }

  /** Label 1 mapped to 2 gives tag 2, then 00..01, then 00..02. */
  lemma ForwardMapExample()
    ensures NewForwardMapIndex([0, 0, 0, 0, 0, 0, 0, 1], 2)
         == [2, 0, 0, 0, 0, 0, 0, 0, 1, 0, 0, 0, 0, 0, 0, 0, 2]
  {
  }

  // ---- Spatial maps: s+a+b ----

  /** Index = s+a+b: the block index bytes, the original label's field (zero
      for a nil label) and the mapped label. */
  function NewSpatialMapIndex(blockIndex: seq<byte>, lbl: Option<seq<byte>>, mappedLabel: uint64): (r: seq<byte>)
    ensures |r| == 1 + |blockIndex| + 16
    ensures r[0] == Tag(KeySpatialMap)
    ensures r[1..1 + |blockIndex|] == blockIndex
    ensures r[1 + |blockIndex|..9 + |blockIndex|] == SpatialLabelField(lbl)
    ensures Uint64FromBytes(r[9 + |blockIndex|..]) == mappedLabel
  {
    Uint64RoundTrip(mappedLabel);
    [Tag(KeySpatialMap)] + blockIndex + SpatialLabelField(lbl) + Uint64Bytes(mappedLabel)
  }

  /** Rewrites the trailing label and mapped-label fields of an existing spatial
      map index; the label field is left alone when `lbl` is nil. The source
      slices at offsets counted back from the end, so the index must hold at
      least those 16 (or, for a nil label, 8) bytes. */
  function UpdateSpatialMapIndex(index: seq<byte>, lbl: Option<seq<byte>>, mappedLabel: uint64): (r: seq<byte>)
    requires |index| >= if lbl.Some? then 16 else 8
    ensures |r| == |index|
    ensures lbl.None? ==> r[..|index| - 8] == index[..|index| - 8]
    ensures lbl.Some? ==> r[..|index| - 16] == index[..|index| - 16]
    ensures lbl.Some? && |lbl.value| >= 8 ==> r[|index| - 16..|index| - 8] == lbl.value[..8]
    ensures lbl.Some? ==> forall i :: 0 <= i < 8 && i < |lbl.value| ==> r[|index| - 16 + i] == lbl.value[i]
    ensures lbl.Some? ==> forall i :: |index| - 16 + |lbl.value| <= i < |index| - 8 ==> r[i] == index[i]
    ensures Uint64FromBytes(r[|index| - 8..]) == mappedLabel
  {
    var n := |index|;
    Uint64RoundTrip(mappedLabel);
    match lbl
    case None => index[..n - 8] + Uint64Bytes(mappedLabel)
    case Some(l) => index[..n - 16] + CopyInto(index[n - 16..n - 8], l) + Uint64Bytes(mappedLabel)
  }

  /** Reads the original label field and the mapped label after a block index
      of `zyxSize` bytes. Only the tag is checked; the index must be long
      enough when the tag matches. */
  function DecodeSpatialMapIndex(index: seq<byte>, zyxSize: nat): (r: Result<(seq<byte>, uint64), KeyError>)
    requires |index| >= 1
    requires index[0] == Tag(KeySpatialMap) ==> |index| >= 1 + zyxSize + 16
    ensures r.Failure? <==> index[0] != Tag(KeySpatialMap)
    ensures r.Failure? ==> r.error == KeyTypeMismatch(KeySpatialMap, index[0])
    ensures r.Success? ==> r.value.0 == index[1 + zyxSize..9 + zyxSize]
    ensures r.Success? ==> Uint64Bytes(r.value.1) == index[9 + zyxSize..17 + zyxSize]
  {
    if index[0] != Tag(KeySpatialMap) then Failure(KeyTypeMismatch(KeySpatialMap, index[0]))
    else
      var labelOffset := 1 + zyxSize;
      Success((index[labelOffset..labelOffset + 8], Uint64FromBytes(index[labelOffset + 8..labelOffset + 16])))
  }

  /** A spatial map index whose block index has the decoder's fixed width
      decodes to its label field and mapped label. */
  lemma SpatialMapRoundTrip(blockIndex: seq<byte>, lbl: Option<seq<byte>>, mappedLabel: uint64)
    ensures DecodeSpatialMapIndex(NewSpatialMapIndex(blockIndex, lbl, mappedLabel), |blockIndex|)
         == Success((SpatialLabelField(lbl), mappedLabel))
  {
    var index := NewSpatialMapIndex(blockIndex, lbl, mappedLabel);
    var r := DecodeSpatialMapIndex(index, |blockIndex|);
    var k := 9 + |blockIndex|;
    assert index[k..k + 8] == index[k..];
    assert Uint64Bytes(r.value.1) == index[k..];
    Uint64RoundTrip(r.value.1);
  }

  /** With a full 8-byte label the round trip gives that label back. */
  lemma SpatialMapRoundTripLabel(blockIndex: seq<byte>, lbl: seq<byte>, mappedLabel: uint64)
    requires |lbl| == 8
    ensures DecodeSpatialMapIndex(NewSpatialMapIndex(blockIndex, Some(lbl), mappedLabel), |blockIndex|)
         == Success((lbl, mappedLabel))
  {
    SpatialMapRoundTrip(blockIndex, Some(lbl), mappedLabel);
    assert lbl[..8] == lbl;
  }

  /** Updating an index built for any label and mapping with a full 8-byte label
      gives the index a fresh build for the same block would. */
  lemma UpdateMatchesFresh(blockIndex: seq<byte>, prevLabel: Option<seq<byte>>, prevMapped: uint64,
                           lbl: seq<byte>, mappedLabel: uint64)
    requires |lbl| >= 8
    ensures UpdateSpatialMapIndex(NewSpatialMapIndex(blockIndex, prevLabel, prevMapped), Some(lbl), mappedLabel)
         == NewSpatialMapIndex(blockIndex, Some(lbl), mappedLabel)
  {
  }

  /** An update with a label shorter than 8 bytes keeps the old label field's
      trailing bytes, while a fresh build pads with zeros: the two agree exactly
      when those trailing bytes of the old field are zero. */
  lemma UpdateWithShortLabelMatchesFreshIff(blockIndex: seq<byte>, prevLabel: Option<seq<byte>>, prevMapped: uint64,
                                            lbl: seq<byte>, mappedLabel: uint64)
    requires |lbl| < 8
    ensures UpdateSpatialMapIndex(NewSpatialMapIndex(blockIndex, prevLabel, prevMapped), Some(lbl), mappedLabel)
         == NewSpatialMapIndex(blockIndex, Some(lbl), mappedLabel)
        <==> forall i :: |lbl| <= i < 8 ==> SpatialLabelField(prevLabel)[i] == 0
  {
    var prev := NewSpatialMapIndex(blockIndex, prevLabel, prevMapped);
    var u := UpdateSpatialMapIndex(prev, Some(lbl), mappedLabel);
    var f := NewSpatialMapIndex(blockIndex, Some(lbl), mappedLabel);
    var k := 1 + |blockIndex|;
    var field := SpatialLabelField(prevLabel);
    assert prev[k..k + 8] == field;
    assert f[k..k + 8] == LabelField(lbl);
    if forall i :: |lbl| <= i < 8 ==> field[i] == 0 {
      assert u[k..k + 8] == f[k..k + 8];
      assert u[k + 8..] == f[k + 8..] by {
        assert Uint64Bytes(Uint64FromBytes(u[k + 8..])) == u[k + 8..];
        assert Uint64Bytes(Uint64FromBytes(f[k + 8..])) == f[k + 8..];
      }
      assert u == u[..k] + u[k..k + 8] + u[k + 8..];
      assert f == f[..k] + f[k..k + 8] + f[k + 8..];
    } else {
      var i :| |lbl| <= i < 8 && field[i] != 0;
      assert u[k + i] == prev[k + i] == field[i];
      assert f[k + i] == LabelField(lbl)[i] == 0;
    }
  }

  /** An instance: an empty label written over an all-ones label field leaves
      those ones in place, unlike a fresh build. */
  lemma UpdateWithShortLabelKeepsOldBytes(blockIndex: seq<byte>, mappedLabel: uint64)
    ensures UpdateSpatialMapIndex(NewSpatialMapIndex(blockIndex, Some([1, 1, 1, 1, 1, 1, 1, 1]), mappedLabel), Some([]), mappedLabel)
         != NewSpatialMapIndex(blockIndex, Some([]), mappedLabel)
  {
    UpdateWithShortLabelMatchesFreshIff(blockIndex, Some([1, 1, 1, 1, 1, 1, 1, 1]), mappedLabel, [], mappedLabel);
    assert SpatialLabelField(Some([1, 1, 1, 1, 1, 1, 1, 1]))[0] == 1;
  }

  /** After an update of a well-formed spatial map index, decoding reads the
      new mapped label and the label field as rewritten. */
  lemma UpdateThenDecode(index: seq<byte>, zyxSize: nat, lbl: seq<byte>, mappedLabel: uint64)
    requires |index| == 1 + zyxSize + 16 && index[0] == Tag(KeySpatialMap)
    ensures DecodeSpatialMapIndex(UpdateSpatialMapIndex(index, Some(lbl), mappedLabel), zyxSize)
         == Success((CopyInto(index[1 + zyxSize..9 + zyxSize], lbl), mappedLabel))
  {
    var u := UpdateSpatialMapIndex(index, Some(lbl), mappedLabel);
    var r := DecodeSpatialMapIndex(u, zyxSize);
    var k := 9 + zyxSize;
    assert u[k..k + 8] == u[|u| - 8..];
    assert Uint64Bytes(r.value.1) == u[|u| - 8..];
    Uint64RoundTrip(r.value.1);
    assert u[1 + zyxSize..9 + zyxSize] == CopyInto(index[1 + zyxSize..9 + zyxSize], lbl);
  }

  // ---- Label to spatial map: b+s ----

  /** Index = b+s: the label, then the block bytes in whatever scheme the caller
      chose. */
  function NewLabelSpatialMapIndex(lbl: uint64, blockBytes: seq<byte>): (r: seq<byte>)
    ensures |r| == 9 + |blockBytes|
    ensures r[0] == Tag(KeyLabelSpatialMap)
    ensures Uint64FromBytes(r[1..9]) == lbl
    ensures r[9..] == blockBytes
  {
    Uint64RoundTrip(lbl);
    [Tag(KeyLabelSpatialMap)] + Uint64Bytes(lbl) + blockBytes
  }

  /** Reads the label and the raw block bytes; only the tag is checked. */
  function DecodeLabelSpatialMapIndex(index: seq<byte>): (r: Result<(uint64, seq<byte>), KeyError>)
    requires |index| >= 1
    requires index[0] == Tag(KeyLabelSpatialMap) ==> |index| >= 9
    ensures r.Failure? <==> index[0] != Tag(KeyLabelSpatialMap)
    ensures r.Failure? ==> r.error == KeyTypeMismatch(KeyLabelSpatialMap, index[0])
    ensures r.Success? ==> index == [Tag(KeyLabelSpatialMap)] + Uint64Bytes(r.value.0) + r.value.1
  {
    if index[0] != Tag(KeyLabelSpatialMap) then Failure(KeyTypeMismatch(KeyLabelSpatialMap, index[0]))
    else
      var lbl := Uint64FromBytes(index[1..9]);
      assert index == [index[0]] + index[1..9] + index[9..];
      Success((lbl, index[9..]))
  }

  lemma LabelSpatialMapRoundTrip(lbl: uint64, blockBytes: seq<byte>)
    ensures DecodeLabelSpatialMapIndex(NewLabelSpatialMapIndex(lbl, blockBytes)) == Success((lbl, blockBytes))
  {
  }

  /** A label-spatial index is one the builder makes from its decoded fields. */
  lemma LabelSpatialMapDecodeRebuilds(index: seq<byte>)
    requires |index| >= 9 && index[0] == Tag(KeyLabelSpatialMap)
    ensures DecodeLabelSpatialMapIndex(index).Success?
    ensures NewLabelSpatialMapIndex(DecodeLabelSpatialMapIndex(index).value.0, DecodeLabelSpatialMapIndex(index).value.1) == index
  {
  }

  // ---- Label sizes: v+b ----

  /** Index = v+b: the voxel count, then the label, both big-endian. */
  function NewLabelSizesIndex(size: uint64, lbl: uint64): (r: seq<byte>)
    ensures |r| == 17
    ensures r[0] == Tag(KeyLabelSizes)
    ensures Uint64FromBytes(r[1..9]) == size
    ensures Uint64FromBytes(r[9..17]) == lbl
  {
    Uint64RoundTrip(size);
    Uint64RoundTrip(lbl);
    var r := [Tag(KeyLabelSizes)] + Uint64Bytes(size) + Uint64Bytes(lbl);
    assert r[1..9] == Uint64Bytes(size) && r[9..17] == Uint64Bytes(lbl);
    r
  }

  /** Reads the label from bytes 9..17. The tag byte is not checked. */
  function LabelFromLabelSizesIndex(index: seq<byte>): (r: uint64)
    requires |index| >= 17
    ensures Uint64Bytes(r) == index[9..17]
  {
    Uint64FromBytes(index[9..17])
  }

  lemma LabelSizesRoundTrip(size: uint64, lbl: uint64)
    ensures LabelFromLabelSizesIndex(NewLabelSizesIndex(size, lbl)) == lbl
  {
  }

  /** With no tag check, a forward map index is read as if it were a label-size
      index: the "label" returned is its mapped label. */
  lemma LabelSizesDecodeSkipsTagCheck(lbl: seq<byte>, mapping: uint64)
    ensures LabelFromLabelSizesIndex(NewForwardMapIndex(lbl, mapping)) == mapping
  {
  }

  // ---- Label surfaces: b ----

  /** Index = b: the label alone. */
  function NewLabelSurfaceIndex(lbl: uint64): (r: seq<byte>)
    ensures |r| == 9
    ensures r[0] == Tag(KeyLabelSurface)
    ensures Uint64FromBytes(r[1..]) == lbl
  {
    Uint64RoundTrip(lbl);
    [Tag(KeyLabelSurface)] + Uint64Bytes(lbl)
  }
}
