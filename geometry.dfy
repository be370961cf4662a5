/** Volume geometry: the boot-sector fields, FAT copy 0, and cluster-to-sector arithmetic. */
module Geometry {
  import opened Bytes

  /** The boot dictionary: seven fields read at fixed offsets of the boot sector and five derived from them. */
  datatype Boot = Boot(
    bytesPerSector: nat,
    sectorsPerCluster: nat,
    reservedSectors: nat,
    numberOfFats: nat,
    totalSectors: nat,
    sectorsPerFat: nat,
    rootDirFirstCluster: nat,
    bytesPerCluster: nat,
    fat0SectorStart: nat,
    fat0SectorEnd: int,
    dataStart: nat,
    dataEnd: int)

  /** The five derived entries, as functions of the seven read ones. */
  ghost predicate Derived(b: Boot) {
    && b.bytesPerCluster == b.bytesPerSector * b.sectorsPerCluster
    && b.fat0SectorStart == b.reservedSectors
    && b.fat0SectorEnd == b.reservedSectors + b.sectorsPerFat - 1
    && b.dataStart == b.reservedSectors + b.sectorsPerFat * b.numberOfFats
    && b.dataEnd == b.totalSectors - 1
  }

  /** Each read field fits the number of bytes it is read from. */
  ghost predicate FieldsFit(b: Boot) {
    && b.bytesPerSector < 0x1_0000
    && b.sectorsPerCluster < 0x100
    && b.reservedSectors < 0x1_0000
    && b.numberOfFats < 0x100
    && b.totalSectors < 0x1_0000_0000
    && b.sectorsPerFat < 0x1_0000_0000
    && b.rootDirFirstCluster < 0x1_0000_0000
  }

  lemma Pow256Values()
    ensures Pow256(1) == 0x100 && Pow256(2) == 0x1_0000 && Pow256(4) == 0x1_0000_0000
  {
    assert Pow256(2) == 256 * Pow256(1);
    assert Pow256(4) == 256 * (256 * Pow256(2));
  }

  /** An unsigned little-endian field of `width` bytes (1, 2 or 4) read at a fixed offset; bytes
      missing at the end of the image count as zero (see ReadFieldIsUnpack). */
  function ReadField(image: seq<Byte>, offset: nat, width: nat): (r: nat)
    requires width == 1 || width == 2 || width == 4
    ensures width == 1 ==> r < 0x100
    ensures width == 2 ==> r < 0x1_0000
    ensures width == 4 ==> r < 0x1_0000_0000
  {
    if width == 1 then ByteAt(image, offset)
    else if width == 2 then U16At(image, offset)
    else U32At(image, offset)
  }

  /** A field is `unpack(file.read(width))` after a seek to its offset. */
  lemma ReadFieldIsUnpack(image: seq<Byte>, offset: nat, width: nat)
    requires width == 1 || width == 2 || width == 4
    ensures ReadField(image, offset, width) == Unpack(ReadAt(image, offset, width))
  {
    if width == 1 {
      UnpackSliceStep(image, offset, offset + 1);
      assert Slice(image, offset + 1, offset + 1) == [];
    } else if width == 2 {
      U16AtIsUnpack(image, offset);
    } else {
      U32AtIsUnpack(image, offset);
    }
  }

  /** The dictionary built from the seven read fields, with the five derived ones computed from them. */
  function Derive(bytesPerSector: nat, sectorsPerCluster: nat, reservedSectors: nat, numberOfFats: nat,
                  totalSectors: nat, sectorsPerFat: nat, rootDirFirstCluster: nat): (b: Boot)
    ensures Derived(b)
    ensures b.bytesPerSector == bytesPerSector && b.sectorsPerCluster == sectorsPerCluster
    ensures b.reservedSectors == reservedSectors && b.numberOfFats == numberOfFats
    ensures b.totalSectors == totalSectors && b.sectorsPerFat == sectorsPerFat
    ensures b.rootDirFirstCluster == rootDirFirstCluster
  {
    Boot(bytesPerSector, sectorsPerCluster, reservedSectors, numberOfFats,
         totalSectors, sectorsPerFat, rootDirFirstCluster,
         bytesPerSector * sectorsPerCluster,
         reservedSectors,
         reservedSectors + sectorsPerFat - 1,
         reservedSectors + sectorsPerFat * numberOfFats,
         totalSectors - 1)
  }

  /** The boot dictionary decoded from the start of the image; an image too short for a field reads it
      from the bytes that are there (zero when none are). */
  function DecodeBoot(image: seq<Byte>): (b: Boot)
    ensures Derived(b) && FieldsFit(b)
  {
    Derive(ReadField(image, 11, 2), ReadField(image, 13, 1), ReadField(image, 14, 2),
           ReadField(image, 16, 1), ReadField(image, 32, 4), ReadField(image, 36, 4),
           ReadField(image, 44, 4))
  }

  /** A boot sector of at least 48 bytes with the read fields of `b` written over it at their offsets
      and widths, every other byte left as it was. */
  function WithBootFields(b: Boot, sector: seq<Byte>): (r: seq<Byte>)
    requires |sector| >= 48
    ensures |r| == |sector|
  {
    sector[..11] + Encode(b.bytesPerSector, 2) + Encode(b.sectorsPerCluster, 1)
    + Encode(b.reservedSectors, 2) + Encode(b.numberOfFats, 1) + sector[17..32]
    + Encode(b.totalSectors, 4) + Encode(b.sectorsPerFat, 4) + sector[40..44]
    + Encode(b.rootDirFirstCluster, 4) + sector[48..]
  }

  /** Decoding reads exactly the seven documented offsets and widths: whatever the other bytes of the
      boot sector hold, writing the fields of a consistent dictionary over them decodes back to it. */
  lemma DecodeEncodeBoot(b: Boot, sector: seq<Byte>)
    requires Derived(b) && FieldsFit(b) && |sector| >= 48
    ensures DecodeBoot(WithBootFields(b, sector)) == b
  {
    var s := WithBootFields(b, sector);
    Pow256Values();
    assert s[11..13] == Encode(b.bytesPerSector, 2);
    assert s[13..14] == Encode(b.sectorsPerCluster, 1);
    assert s[14..16] == Encode(b.reservedSectors, 2);
    assert s[16..17] == Encode(b.numberOfFats, 1);
    assert s[32..36] == Encode(b.totalSectors, 4);
    assert s[36..40] == Encode(b.sectorsPerFat, 4);
    assert s[44..48] == Encode(b.rootDirFirstCluster, 4);
    UnpackEncode(b.bytesPerSector, 2);
    UnpackEncode(b.sectorsPerCluster, 1);
    UnpackEncode(b.reservedSectors, 2);
    UnpackEncode(b.numberOfFats, 1);
    UnpackEncode(b.totalSectors, 4);
    UnpackEncode(b.sectorsPerFat, 4);
    UnpackEncode(b.rootDirFirstCluster, 4);
    ReadFieldIsUnpack(s, 11, 2);
    ReadFieldIsUnpack(s, 13, 1);
    ReadFieldIsUnpack(s, 14, 2);
    ReadFieldIsUnpack(s, 16, 1);
    ReadFieldIsUnpack(s, 32, 4);
    ReadFieldIsUnpack(s, 36, 4);
    ReadFieldIsUnpack(s, 44, 4);
  }

  /** FAT copy 0: sectors_per_fat sectors read from the first FAT sector, short if the image ends first. */
  function LoadFat(image: seq<Byte>, b: Boot): (fat: seq<Byte>)
    ensures var start := b.fat0SectorStart * b.bytesPerSector;
      |fat| == if start < |image| then Min(b.sectorsPerFat * b.bytesPerSector, |image| - start) else 0
    ensures forall k :: 0 <= k < |fat| ==>
              b.fat0SectorStart * b.bytesPerSector + k < |image| &&
              fat[k] == image[b.fat0SectorStart * b.bytesPerSector + k]
    ensures b.fat0SectorStart * b.bytesPerSector + b.sectorsPerFat * b.bytesPerSector <= |image| ==>
              |fat| == b.sectorsPerFat * b.bytesPerSector
  {
    ReadAt(image, b.fat0SectorStart * b.bytesPerSector, b.sectorsPerFat * b.bytesPerSector)
  }

  /** First sector of a cluster; clusters are numbered from 2 at the start of the data region. */
  function ToSector(b: Boot, cluster: int): int {
    (cluster - 2) * b.sectorsPerCluster + b.dataStart
  }

  /** Last sector of a cluster. */
  function EndSector(b: Boot, cluster: int): int {
    ToSector(b, cluster) + b.sectorsPerCluster - 1
  }

  /** Cluster 2 starts the data region, right after the reserved sectors and every FAT copy; each
      cluster ends sectors_per_cluster - 1 sectors after its start and the next one starts just
      after it, so no cluster numbered 2 or more reaches back into the FAT copies. */
  lemma ClusterLayout(b: Boot, cluster: int)
    requires Derived(b)
    ensures ToSector(b, 2) == b.reservedSectors + b.sectorsPerFat * b.numberOfFats
    ensures EndSector(b, cluster) - ToSector(b, cluster) + 1 == b.sectorsPerCluster
    ensures ToSector(b, cluster + 1) == EndSector(b, cluster) + 1
    ensures cluster >= 2 ==> ToSector(b, cluster) >= b.dataStart
  {
    assert (cluster + 1 - 2) * b.sectorsPerCluster == (cluster - 2) * b.sectorsPerCluster + b.sectorsPerCluster;
    if cluster >= 2 {
      NatProduct(cluster - 2, b.sectorsPerCluster);
    }
  }

  /** Python's `list(range(lo, hi))`. */
  function Range(lo: int, hi: int): (r: seq<int>)
    decreases hi - lo
    ensures |r| == if lo < hi then hi - lo else 0
  {
    if lo < hi then [lo] + Range(lo + 1, hi) else []
  }

  /** The sectors of one cluster, first to last. */
  function ClusterRange(b: Boot, cluster: int): (r: seq<int>)
    ensures |r| == b.sectorsPerCluster
  {
    Range(ToSector(b, cluster), EndSector(b, cluster) + 1)
  }

  lemma {:induction false} RangeAt(lo: int, hi: int, i: nat)
    requires i < |Range(lo, hi)|
    ensures Range(lo, hi)[i] == lo + i
    decreases hi - lo
  {
    if i > 0 {
      RangeAt(lo + 1, hi, i - 1);
    }
  }

  /** Sector i of a cluster is its first sector plus i. */
  lemma ClusterRangeAt(b: Boot, cluster: int, i: nat)
    requires i < b.sectorsPerCluster
    ensures ClusterRange(b, cluster)[i] == ToSector(b, cluster) + i
  {
    RangeAt(ToSector(b, cluster), EndSector(b, cluster) + 1, i);
  }

  lemma NatProduct(x: nat, y: nat)
    ensures x * y >= 0
  {
  }

  lemma AtLeastOnce(x: int, y: nat)
    requires x >= 1
    ensures x * y >= y
  {
  }

  /** Sector x belongs to the given cluster. */
  predicate InCluster(b: Boot, cluster: int, x: int) {
    ToSector(b, cluster) <= x < ToSector(b, cluster) + b.sectorsPerCluster
  }

  /** Two different clusters never share a sector. */
  lemma ClusterRangesDisjoint(b: Boot, c1: int, c2: int, x: int)
    requires c1 != c2
    ensures !(InCluster(b, c1, x) && InCluster(b, c2, x))
  {
    var spc := b.sectorsPerCluster;
    if c1 < c2 {
      assert ToSector(b, c2) - ToSector(b, c1) == (c2 - c1) * spc;
      AtLeastOnce(c2 - c1, spc);
    } else {
      assert ToSector(b, c1) - ToSector(b, c2) == (c1 - c2) * spc;
      AtLeastOnce(c1 - c2, spc);
    }
  }
}
