/** Sort-order facts about the key spaces of datatype/voxels/keys.go. A sorted
    key-value store compares keys byte-lexicographically; because every index
    starts with its KeyType tag and every number is big-endian, each kind of index
    occupies one contiguous range and range scans within it follow the numeric
    order of its fields. */
module KeyOrder {
  import opened Wrappers
  import opened Bytes
  import opened Keys

  /** Two indexes with the same tag compare as their remainders do. */
  lemma SameTagOrder(t: byte, x: seq<byte>, y: seq<byte>)
    ensures LexLess([t] + x, [t] + y) <==> LexLess(x, y)
  {
  }

  /** Two equal-width fields followed by anything: the first field decides
      unless equal. */
  lemma FieldsOrder(a: seq<byte>, c: seq<byte>, b: seq<byte>, d: seq<byte>)
    requires |a| == |b|
    ensures LexLess(a + c, b + d) <==> LexLess(a, b) || (a == b && LexLess(c, d))
  {
    LexLessConcat(a, c, b, d);
  }

  /** No index of another kind sorts between two indexes of one kind, so each
      key type is a contiguous range of the sorted key space. */
  lemma KeySpacesDoNotInterleave(a: seq<byte>, b: seq<byte>, c: seq<byte>)
    requires |a| > 0 && |b| > 0 && |c| > 0
    requires a[0] == c[0] && b[0] != a[0]
    ensures !(LexLess(a, b) && LexLess(b, c))
  {
  }

  /** Indexes of different kinds never coincide and sort by their tags. */
  lemma DistinctKindsOrderedByTag(a: seq<byte>, ta: KeyType, b: seq<byte>, tb: KeyType)
    requires |a| > 0 && |b| > 0 && a[0] == Tag(ta) && b[0] == Tag(tb) && ta != tb
    ensures a != b
    ensures LexLess(a, b) <==> ta < tb
  {
  }

  lemma VoxelBlockOrder(s1: seq<byte>, s2: seq<byte>)
    ensures LexLess(NewVoxelBlockIndex(s1), NewVoxelBlockIndex(s2)) <==> LexLess(s1, s2)
  {
  }

  /** Forward map indexes sort by original label, then by mapped label, so all
      mappings of one label are adjacent. */
  lemma ForwardMapOrder(l1: seq<byte>, m1: uint64, l2: seq<byte>, m2: uint64)
    ensures LexLess(NewForwardMapIndex(l1, m1), NewForwardMapIndex(l2, m2))
        <==> LexLess(LabelField(l1), LabelField(l2)) || (LabelField(l1) == LabelField(l2) && m1 < m2)
  {
    var t := Tag(KeyForwardMap);
    assert NewForwardMapIndex(l1, m1) == [t] + (LabelField(l1) + Uint64Bytes(m1));
    assert NewForwardMapIndex(l2, m2) == [t] + (LabelField(l2) + Uint64Bytes(m2));
    SameTagOrder(t, LabelField(l1) + Uint64Bytes(m1), LabelField(l2) + Uint64Bytes(m2));
    FieldsOrder(LabelField(l1), Uint64Bytes(m1), LabelField(l2), Uint64Bytes(m2));
    Uint64Order(m1, m2);
  }

  /** Inverse map indexes sort by mapped label, then by original label, so all
      labels mapped to one label are adjacent. */
  lemma InverseMapOrder(l1: seq<byte>, m1: uint64, l2: seq<byte>, m2: uint64)
    ensures LexLess(NewInverseMapIndex(l1, m1), NewInverseMapIndex(l2, m2))
        <==> m1 < m2 || (m1 == m2 && LexLess(LabelField(l1), LabelField(l2)))
  {
    var t := Tag(KeyInverseMap);
    assert NewInverseMapIndex(l1, m1) == [t] + (Uint64Bytes(m1) + LabelField(l1));
    assert NewInverseMapIndex(l2, m2) == [t] + (Uint64Bytes(m2) + LabelField(l2));
    SameTagOrder(t, Uint64Bytes(m1) + LabelField(l1), Uint64Bytes(m2) + LabelField(l2));
    FieldsOrder(Uint64Bytes(m1), LabelField(l1), Uint64Bytes(m2), LabelField(l2));
    Uint64Order(m1, m2);
    Pow256Widths();
    BigEndianInjective(m1, m2, 8);
  }

  lemma SpatialMapShape(s: seq<byte>, l: Option<seq<byte>>, m: uint64)
    ensures NewSpatialMapIndex(s, l, m) == [Tag(KeySpatialMap)] + (s + (SpatialLabelField(l) + Uint64Bytes(m)))
  {
  }

  /** For block indexes of one width, spatial map indexes sort by block first,
      then label field, then mapped label: all mappings inside one block are
      adjacent. */
  lemma SpatialMapOrder(s1: seq<byte>, l1: Option<seq<byte>>, m1: uint64,
                        s2: seq<byte>, l2: Option<seq<byte>>, m2: uint64)
    requires |s1| == |s2|
    ensures LexLess(NewSpatialMapIndex(s1, l1, m1), NewSpatialMapIndex(s2, l2, m2))
        <==> LexLess(s1, s2)
             || (s1 == s2 && (LexLess(SpatialLabelField(l1), SpatialLabelField(l2))
                              || (SpatialLabelField(l1) == SpatialLabelField(l2) && m1 < m2)))
  {
    var f1, f2 := SpatialLabelField(l1), SpatialLabelField(l2);
    var b1, b2 := Uint64Bytes(m1), Uint64Bytes(m2);
    SpatialMapShape(s1, l1, m1);
    SpatialMapShape(s2, l2, m2);
    SameTagOrder(Tag(KeySpatialMap), s1 + (f1 + b1), s2 + (f2 + b2));
    FieldsOrder(s1, f1 + b1, s2, f2 + b2);
    FieldsOrder(f1, b1, f2, b2);
    Uint64Order(m1, m2);
  }

  /** Label-spatial indexes sort by label, then by block bytes: every block of
      one label lies in one contiguous range, whatever the block scheme. */
  lemma LabelSpatialMapOrder(b1: uint64, s1: seq<byte>, b2: uint64, s2: seq<byte>)
    ensures LexLess(NewLabelSpatialMapIndex(b1, s1), NewLabelSpatialMapIndex(b2, s2))
        <==> b1 < b2 || (b1 == b2 && LexLess(s1, s2))
  {
    var t := Tag(KeyLabelSpatialMap);
    assert NewLabelSpatialMapIndex(b1, s1) == [t] + (Uint64Bytes(b1) + s1);
    assert NewLabelSpatialMapIndex(b2, s2) == [t] + (Uint64Bytes(b2) + s2);
    SameTagOrder(t, Uint64Bytes(b1) + s1, Uint64Bytes(b2) + s2);
    FieldsOrder(Uint64Bytes(b1), s1, Uint64Bytes(b2), s2);
    Uint64Order(b1, b2);
    Pow256Widths();
    BigEndianInjective(b1, b2, 8);
  }

  /** Label-size indexes sort by voxel count, then by label, so a range of sizes
      is one range scan. */
  lemma LabelSizesOrder(v1: uint64, b1: uint64, v2: uint64, b2: uint64)
    ensures LexLess(NewLabelSizesIndex(v1, b1), NewLabelSizesIndex(v2, b2))
        <==> v1 < v2 || (v1 == v2 && b1 < b2)
  {
    var t := Tag(KeyLabelSizes);
    assert NewLabelSizesIndex(v1, b1) == [t] + (Uint64Bytes(v1) + Uint64Bytes(b1));
    assert NewLabelSizesIndex(v2, b2) == [t] + (Uint64Bytes(v2) + Uint64Bytes(b2));
    SameTagOrder(t, Uint64Bytes(v1) + Uint64Bytes(b1), Uint64Bytes(v2) + Uint64Bytes(b2));
    FieldsOrder(Uint64Bytes(v1), Uint64Bytes(b1), Uint64Bytes(v2), Uint64Bytes(b2));
    Uint64Order(v1, v2);
    Uint64Order(b1, b2);
    Pow256Widths();
    BigEndianInjective(v1, v2, 8);
  }

  /** Label surface indexes sort by label. */
  lemma LabelSurfaceOrder(b1: uint64, b2: uint64)
    ensures LexLess(NewLabelSurfaceIndex(b1), NewLabelSurfaceIndex(b2)) <==> b1 < b2
  {
    SameTagOrder(Tag(KeyLabelSurface), Uint64Bytes(b1), Uint64Bytes(b2));
    Uint64Order(b1, b2);
  }
}
