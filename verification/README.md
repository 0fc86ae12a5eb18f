# dvid key spaces and local identifiers in Dafny

This project models two pure, sequential parts of the dvid versioned datastore.

- **Voxel and label key spaces** (`datatype/voxels/keys.go`). Every composite index begins with a one-byte `KeyType` tag: Unknown=0, VoxelBlock=1, ForwardMap=2, InverseMap=3, SpatialMap=4, LabelSpatialMap=5, LabelSizes=6, LabelSurface=7. The tag is followed by a fixed layout of fields:
  - big-endian `uint64` fields;
  - 8-byte label fields filled by Go's `copy`;
  - block-coordinate bytes.

  The model has the seven builders, the three decoders, the unchecked label-size reader and the in-place rewrite of a spatial map index.
- **Local identifiers** (`dvid/data.go`). `LocalID` is 16 bits. `LocalID32`, `InstanceID`, `RepoID` and `VersionID` are 32 bits. Each has a big-endian encoder and a decoder that does not check its input. Node UUIDs are rendered as 32 lower-case hexadecimal characters, with `""` as the nil UUID.

Modules:

- `Wrappers` (wrappers.dfy): `Option` (`None` stands for a Go nil slice) and `Result`.
- `Bytes` (bytes.dfy): fixed-width integers, big-endian encoding (`binary.BigEndian`) and byte-lexicographic order `LexLess` (`bytes.Compare(a, b) < 0`). The encoding round trips both ways. `BigEndianOrder` proves that numeric order and byte order agree at equal width.
- `Ids` (ids.dfy): the identifier types as distinct newtypes, the size and maximum constants, the encoders and decoders, and `NewUUID`.
- `Keys` (keys.dfy): `KeyType`, its names, builders, decoders, `UpdateSpatialMapIndex` and the round-trip lemmas.
- `KeyOrder` (key_order.dfy): the sort-order facts. Each kind of index fills one contiguous range of the sorted key space. Within a kind, keys sort by their fields in the order the layout lists them.

Abstractions:

- Each `Decode*`/`LabelFrom*` function in the source first extracts the index from a storage key with `storage.DataContext.IndexFromKey`. If that fails, its error is returned unchanged. The model's decoders start from the index bytes.
- The coordinate width `dvid.IndexZYXSize` is the parameter `zyxSize` of `DecodeSpatialMapIndex`.
- `dvid.IndexZYX.IndexFromBytes` is the function parameter `zyxFromBytes` of `DecodeVoxelBlockIndex`.
- `dvid.Index.Bytes()` is an opaque `seq<byte>`.
- The voxel-block coordinate that Go passes as a `string` is its byte sequence.
- The result of the UUID generator is an input: `None` stands for nil.
- Go's method on `SpatialMapIndex` rewrites the slice in place. The model's `UpdateSpatialMapIndex` returns the rewritten sequence instead.
- The source does not check lengths. A Go slice expression that would panic on a short index becomes a `requires`. These preconditions are written so that an index with the wrong tag still gets the mismatch error, as in Go, even when it is too short to decode.

## Model

| member | source | states |
|---|---|---|
| Keys.KeyTypeString | datatype/voxels/keys.go:64-85 | The name is "Unknown Key Type" exactly for tag 0 and for any byte above the seven declared kinds |
| Keys.KeyTypeNamesDistinct | datatype/voxels/keys.go:64-85 | The seven declared kinds (1..7) have pairwise different names |
| KeyOrder.DistinctKindsOrderedByTag | datatype/voxels/keys.go:15-62 | Indexes whose tags are different kinds are never equal, and they sort by their tag values |
| KeyOrder.KeySpacesDoNotInterleave | datatype/voxels/keys.go:15-62 | No index of another kind sorts between two indexes of one kind, so each kind is a contiguous range |
| Keys.NewVoxelBlockIndexByCoord | datatype/voxels/keys.go:87-94 | The index is the VoxelBlock tag followed by the coordinate bytes, one byte longer than the coordinate |
| Keys.NewVoxelBlockIndex | datatype/voxels/keys.go:96-101 | The index is the VoxelBlock tag followed by the block index's bytes |
| Keys.DecodeVoxelBlockIndex | datatype/voxels/keys.go:103-119 | Fails with a mismatch carrying the expected and actual tag exactly when byte 0 is not VoxelBlock; otherwise succeeds exactly when the block-index parser accepts the bytes after the tag, and its errors come back as BadBlockIndex |
| Keys.VoxelBlockRoundTrip | datatype/voxels/keys.go:87-119 | Decoding a built voxel block index gives the parser exactly the block bytes it was built from |
| KeyOrder.VoxelBlockOrder | datatype/voxels/keys.go:87-101 | Voxel block indexes sort exactly as their block bytes do |
| Keys.NewForwardMapIndex | datatype/voxels/keys.go:121-134 | 17 bytes: the ForwardMap tag, the label's 8-byte field (cut or zero-padded) and the big-endian mapping, which reads back as the mapping |
| Keys.NewInverseMapIndex | datatype/voxels/keys.go:136-144 | 17 bytes: the InverseMap tag, the big-endian mapping, then the label's 8-byte field |
| Keys.ForwardInverseSwap | datatype/voxels/keys.go:121-144 | The inverse index holds the forward index's two fields in swapped order |
| Keys.ForwardMapExample | datatype/voxels/keys.go:128-134 | Label 00..01 with mapping 2 gives [0x02, 00×7, 0x01, 00×7, 0x02] |
| KeyOrder.ForwardMapOrder | datatype/voxels/keys.go:128-134 | Forward map indexes sort by label field, then by mapping, in both directions |
| KeyOrder.InverseMapOrder | datatype/voxels/keys.go:138-144 | Inverse map indexes sort by mapping, then by label field, in both directions |
| Keys.NewSpatialMapIndex | datatype/voxels/keys.go:148-162 | Length 1+\|s\|+16: the SpatialMap tag, the block bytes, the label field (zero for a nil label) and the mapped label in the last 8 bytes |
| Keys.UpdateSpatialMapIndex | datatype/voxels/keys.go:164-171 | Length is kept. Only the last 16 bytes change, or only the last 8 for a nil label. The label is copied over the first min(8, \|label\|) bytes of the label field and the rest of the field is kept. The last 8 bytes read back as the new mapped label |
| Keys.DecodeSpatialMapIndex | datatype/voxels/keys.go:173-189 | Fails exactly when byte 0 is not SpatialMap, with the expected and actual tag. Otherwise returns the 8 bytes at 1+zyxSize and the big-endian value after them |
| Keys.SpatialMapRoundTrip | datatype/voxels/keys.go:150-189 | When the block index is zyxSize bytes long, decoding a built index gives back its label field and mapped label |
| Keys.SpatialMapRoundTripLabel | datatype/voxels/keys.go:150-189 | With an 8-byte label, decoding gives back that exact label and mapping |
| Keys.UpdateMatchesFresh | datatype/voxels/keys.go:150-171 | Updating any built index with a label of at least 8 bytes equals a fresh build for the same block with the new label and mapping |
| Keys.UpdateWithShortLabelMatchesFreshIff | datatype/voxels/keys.go:150-171 | For a label shorter than 8 bytes, updating a built index equals a fresh build exactly when the old label field is zero from the label's length on, since `copy` keeps the bytes it does not overwrite |
| Keys.UpdateWithShortLabelKeepsOldBytes | datatype/voxels/keys.go:164-171 | An example: an empty label written over an all-ones label field keeps the ones, so the result differs from a fresh build |
| Keys.UpdateThenDecode | datatype/voxels/keys.go:164-189 | After updating a well-formed spatial map index, decoding returns the rewritten label field and the new mapped label |
| KeyOrder.SpatialMapOrder | datatype/voxels/keys.go:148-162 | At equal block width, spatial map indexes sort by block bytes, then label field, then mapped label, in both directions |
| Keys.NewLabelSpatialMapIndex | datatype/voxels/keys.go:191-200 | The LabelSpatialMap tag, the big-endian label (which reads back as the label), then the block bytes unchanged |
| Keys.DecodeLabelSpatialMapIndex | datatype/voxels/keys.go:202-219 | Fails exactly when byte 0 is not LabelSpatialMap, with the expected and actual tag. Otherwise the index is the tag, the encoded label and the returned block bytes |
| Keys.LabelSpatialMapRoundTrip | datatype/voxels/keys.go:193-219 | Decoding a built index returns the label and the block bytes it was built from |
| Keys.LabelSpatialMapDecodeRebuilds | datatype/voxels/keys.go:193-219 | Every index of at least 9 bytes with the right tag decodes, and rebuilding from the decoded fields gives the same index |
| KeyOrder.LabelSpatialMapOrder | datatype/voxels/keys.go:191-200 | Label-spatial indexes sort by label, then by block bytes: all blocks of one label are contiguous |
| Keys.NewLabelSizesIndex | datatype/voxels/keys.go:221-228 | 17 bytes: the LabelSizes tag, then the size and the label, each reading back from its 8 bytes |
| Keys.LabelFromLabelSizesIndex | datatype/voxels/keys.go:230-237 | The result is the value whose big-endian form is bytes 9..17 |
| Keys.LabelSizesRoundTrip | datatype/voxels/keys.go:222-237 | Reading a built label-size index returns its label |
| Keys.LabelSizesDecodeSkipsTagCheck | datatype/voxels/keys.go:230-237 | The reader does not check the tag, so a forward map index is read and its mapping is returned as the "label" |
| KeyOrder.LabelSizesOrder | datatype/voxels/keys.go:221-228 | Label-size indexes sort by size, then by label, in both directions |
| Keys.NewLabelSurfaceIndex | datatype/voxels/keys.go:239-245 | 9 bytes: the LabelSurface tag and the big-endian label, which reads back as the label |
| KeyOrder.LabelSurfaceOrder | datatype/voxels/keys.go:239-245 | Label surface indexes sort exactly as their labels do |
| Bytes.BigEndianOrder | dvid/data.go:30-36 | At equal width, x < y exactly when the big-endian encoding of x sorts before that of y |
| Ids.LocalIDBytes | dvid/data.go:30-36 | LocalIDSize (2) bytes that read back big-endian as the id |
| Ids.LocalIDFromBytes | dvid/data.go:38-42 | Reports LocalIDSize bytes used, and the id read encodes to exactly the first two bytes of the input |
| Ids.LocalIDRoundTrip | dvid/data.go:30-42 | Decoding an encoded LocalID gives the id and length 2 |
| Ids.LocalIDOrder | dvid/data.go:30-36 | x < y exactly when x's bytes sort before y's |
| Ids.LocalID32Bytes | dvid/data.go:44-49 | LocalID32Size (4) bytes that read back big-endian as the id |
| Ids.LocalID32FromBytes | dvid/data.go:51-55 | Reports LocalID32Size bytes used, and the id read encodes to exactly the first four bytes |
| Ids.LocalID32RoundTrip | dvid/data.go:44-55 | Decoding an encoded LocalID32 gives the id and length 4 |
| Ids.LocalID32Order | dvid/data.go:44-49 | x < y exactly when x's bytes sort before y's |
| Ids.InstanceIDBytes | dvid/data.go:94-99 | InstanceIDSize (4) bytes that read back big-endian as the id |
| Ids.InstanceIDFromBytes | dvid/data.go:101-105 | The id read encodes to exactly the first four bytes, so decoding a 4-byte slice and encoding it again gives the slice back |
| Ids.InstanceIDRoundTrip | dvid/data.go:94-105 | The decoder is a left inverse of the encoder |
| Ids.InstanceIDOrder | dvid/data.go:94-99 | x < y exactly when x's bytes sort before y's |
| Ids.RepoIDBytes | dvid/data.go:111-117 | RepoIDSize (4) bytes that read back big-endian as the id |
| Ids.RepoIDFromBytes | dvid/data.go:119-123 | The id read encodes to exactly the first four bytes |
| Ids.RepoIDRoundTrip | dvid/data.go:111-123 | The decoder is a left inverse of the encoder |
| Ids.RepoIDOrder | dvid/data.go:111-117 | x < y exactly when x's bytes sort before y's (the stated reason for big-endian) |
| Ids.VersionIDBytes | dvid/data.go:129-135 | VersionIDSize (4) bytes that read back big-endian as the id |
| Ids.VersionIDFromBytes | dvid/data.go:137-141 | The id read encodes to exactly the first four bytes |
| Ids.VersionIDRoundTrip | dvid/data.go:129-141 | The decoder is a left inverse of the encoder |
| Ids.VersionIDOrder | dvid/data.go:129-135 | x < y exactly when x's bytes sort before y's |
| Ids.DecodersIgnoreTail | dvid/data.go:38-141 | Bytes after the identifier's width (2 for LocalID, 4 for the 32-bit ids) never change any of the five decoders' results |
| Ids.NewUUID | dvid/data.go:65-74 | NilUUID ("") exactly when the generator gave nil or not 16 bytes. Otherwise 32 lower-case hex characters that parse back to the 16 bytes |
| Ids.NewUUIDInjective | dvid/data.go:65-74 | Different 16-byte generator results render to different UUIDs |
| Ids.ParseHexOfHex | dvid/data.go:71 | The `%x` rendering of any byte string parses back to that byte string |

## Left out

- `storage.DataContext.IndexFromKey` is not part of this model. The decoders take the index bytes. In the source, an error from it is returned unchanged before any other check.
- `dvid.IndexZYX.IndexFromBytes` and `dvid.IndexZYXSize` are not part of this model. They are parameters of the decoders that use them.
- The source has no decoder for ForwardMap or InverseMap indexes, so the model has none. Their layout is stated instead by the builders' contracts and `ForwardInverseSwap`.
- The source's `LabelFromLabelSizesKey` does not check the tag byte, unlike `DecodeVoxelBlockKey`, `DecodeSpatialMapKey` and `DecodeLabelSpatialMapKey` (datatype/voxels/keys.go:111, 181, 212), which reject a foreign tag. The model follows the code; `LabelSizesDecodeSkipsTagCheck` shows the consequence.
- In Go, the label returned by `DecodeSpatialMapKey` (datatype/voxels/keys.go:186) and the block bytes returned by `DecodeLabelSpatialMapKey` (datatype/voxels/keys.go:217) are sub-slices sharing the key's buffer, so a later write to either shows in the other. The model returns independent values and does not model this aliasing.
- Go panics on a slice that is too short; Go may also reslice into spare capacity. Neither is modelled. The lengths that avoid both are preconditions instead.
- An update of an index shorter than 17 bytes can overwrite the tag. The precondition admits such indexes, as Go does. `UpdateSpatialMapIndex` only promises the tag survives through its "only the last 16 (or 8) bytes change" clause.
- The random or time-based generator behind `uuid.NewUUID` is a foreign library. Its result is an input.
- The `Data` interface (dvid/data.go:156-170) has no implementation to model.
- The `TypeString`, `URLString` and `DataString` string types, and the `InstanceMap` and `VersionMap` map types, have no behaviour to model.
- `Axis.String` (dvid/data.go:172-195) is a fixed table of names and is not modelled.
- `server/server_local.go` is not modelled. It is HTTP/RPC serving, storage-engine setup through Go type assertions, semaphore channels, load sampling and a polling shutdown.
- `dvid/distributed.go` is not modelled. It is a goroutine-driven counter of native-call regions and a sleep-based drain.
- Everything in both of those files is I/O or concurrency.
