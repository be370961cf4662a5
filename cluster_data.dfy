/** Reading the raw bytes of a cluster chain, and the content preview and slack of a file. */
module ClusterData {
  import opened Results
  import opened Bytes
  import opened Geometry
  import opened Chain

  /** The parsed volume: the image, the boot dictionary and FAT copy 0. */
  datatype Volume = Volume(image: seq<Byte>, boot: Boot, fat: seq<Byte>)

  /** Reads the listed sectors in order, bytes_per_sector bytes from sector * bytes_per_sector each,
      and joins the pieces; the first sector at a negative offset stops the read. */
  function ReadSectors(image: seq<Byte>, bytesPerSector: nat, sectors: seq<int>): Result<seq<Byte>> {
    if sectors == [] then Ok([])
    else
      var chunk :- SeekRead(image, sectors[0] * bytesPerSector, bytesPerSector);
      var rest :- ReadSectors(image, bytesPerSector, sectors[1..]);
      Ok(chunk + rest)
  }

  /** All bytes of the chain starting at `cluster`, slack included, without any size truncation. */
  function ChainData(v: Volume, cluster: int): Result<seq<Byte>> {
    var sectors :- ChainSectors(v.boot, v.fat, cluster);
    ReadSectors(v.image, v.boot.bytesPerSector, sectors)
  }

  /** A read of sectors is the read of the first one followed by the read of the rest. */
  lemma ReadSectorsFirst(image: seq<Byte>, bytesPerSector: nat, sectors: seq<int>)
    requires sectors != []
    ensures var offset := sectors[0] * bytesPerSector;
      ReadSectors(image, bytesPerSector, sectors) ==
        if offset < 0 then Err(NegativeSeek(offset))
        else Then(ReadAt(image, offset, bytesPerSector), ReadSectors(image, bytesPerSector, sectors[1..]))
  {
    var offset := sectors[0] * bytesPerSector;
    if offset >= 0 {
      assert SeekRead(image, offset, bytesPerSector) == Ok(ReadAt(image, offset, bytesPerSector));
    }
  }

  /** Sector i of the list lies wholly inside the image. */
  ghost predicate SectorsInImage(image: seq<Byte>, bytesPerSector: nat, sectors: seq<int>) {
    forall i :: 0 <= i < |sectors| ==> 0 <= sectors[i] && sectors[i] * bytesPerSector + bytesPerSector <= |image|
  }

  /** A read of sectors fails exactly when one of them lies at a negative byte offset. */
  lemma {:induction false} ReadSectorsFails(image: seq<Byte>, bytesPerSector: nat, sectors: seq<int>)
    ensures ReadSectors(image, bytesPerSector, sectors).Err? <==>
              exists i :: 0 <= i < |sectors| && sectors[i] * bytesPerSector < 0
  {
    if sectors != [] {
      ReadSectorsFails(image, bytesPerSector, sectors[1..]);
      if exists i :: 0 <= i < |sectors| - 1 && sectors[1..][i] * bytesPerSector < 0 {
        var i :| 0 <= i < |sectors| - 1 && sectors[1..][i] * bytesPerSector < 0;
        assert sectors[i + 1] * bytesPerSector < 0;
      }
      if exists i :: 0 <= i < |sectors| && sectors[i] * bytesPerSector < 0 {
        var i :| 0 <= i < |sectors| && sectors[i] * bytesPerSector < 0;
        if i > 0 {
          assert sectors[1..][i - 1] * bytesPerSector < 0;
        }
      }
    }
  }

  /** A read of sectors gives at most bytes_per_sector bytes for each sector. */
  lemma {:induction false} ReadSectorsAtMost(image: seq<Byte>, bytesPerSector: nat, sectors: seq<int>)
    requires ReadSectors(image, bytesPerSector, sectors).Ok?
    ensures |ReadSectors(image, bytesPerSector, sectors).value| <= |sectors| * bytesPerSector
  {
    if sectors != [] {
      ReadSectorsAtMost(image, bytesPerSector, sectors[1..]);
      assert |sectors| * bytesPerSector == bytesPerSector + (|sectors| - 1) * bytesPerSector;
    }
  }

  /** How reading a chain ends: a failed chain lookup fails the read with its error; otherwise the
      read fails exactly when a listed sector lies at a negative byte offset, an unallocated chain
      reads as nothing, and a successful read has at most bytes_per_sector bytes per sector. */
  lemma ChainDataOutcomes(v: Volume, cluster: int)
    ensures var cs := ChainSectors(v.boot, v.fat, cluster);
      cs.Err? ==> ChainData(v, cluster) == Err(cs.error)
    ensures var cs := ChainSectors(v.boot, v.fat, cluster);
      cs.Ok? ==>
        && (ChainData(v, cluster).Err? <==>
              exists i :: 0 <= i < |cs.value| && cs.value[i] * v.boot.bytesPerSector < 0)
        && (cs.value == [] ==> ChainData(v, cluster) == Ok([]))
        && (ChainData(v, cluster).Ok? ==> |ChainData(v, cluster).value| <= |cs.value| * v.boot.bytesPerSector)
  {
    var cs := ChainSectors(v.boot, v.fat, cluster);
    if cs.Ok? {
      ReadSectorsFails(v.image, v.boot.bytesPerSector, cs.value);
      if ChainData(v, cluster).Ok? {
        ReadSectorsAtMost(v.image, v.boot.bytesPerSector, cs.value);
      }
    }
  }

  /** Block i of n elements of a sequence. */
  ghost function Block<T>(s: seq<T>, n: nat, i: nat): seq<T>
    requires (i + 1) * n <= |s|
  {
    s[i * n..(i + 1) * n]
  }

  /** Block i > 0 of a sequence that starts with one block is block i - 1 of what follows it. */
  lemma BlockAfterFirst<T>(first: seq<T>, rest: seq<T>, n: nat, i: nat, count: nat)
    requires |first| == n && |rest| == (count - 1) * n && 0 < i < count
    ensures (i + 1) * n <= |first + rest| && i * n <= |rest|
    ensures Block(first + rest, n, i) == Block(rest, n, i - 1)
  {
    assert i * n == n + (i - 1) * n && (i + 1) * n == n + i * n;
    assert i * n <= (count - 1) * n;
  }

  /** The bytes of one sector lying inside the image. */
  ghost function SectorBytes(image: seq<Byte>, bytesPerSector: nat, sector: int): seq<Byte>
    requires 0 <= sector && sector * bytesPerSector + bytesPerSector <= |image|
  {
    image[sector * bytesPerSector..sector * bytesPerSector + bytesPerSector]
  }

  /** A read of sectors inside the image succeeds, with a full sector of bytes for each. */
  lemma {:induction false} ReadSectorsLength(image: seq<Byte>, bytesPerSector: nat, sectors: seq<int>)
    requires SectorsInImage(image, bytesPerSector, sectors)
    ensures ReadSectors(image, bytesPerSector, sectors).Ok?
    ensures |ReadSectors(image, bytesPerSector, sectors).value| == |sectors| * bytesPerSector
    ensures sectors != [] ==>
              ReadSectors(image, bytesPerSector, sectors).value ==
              SectorBytes(image, bytesPerSector, sectors[0]) + ReadSectors(image, bytesPerSector, sectors[1..]).value
  {
    var n := bytesPerSector;
    if sectors != [] {
      var tail := sectors[1..];
      TailInImage(image, n, sectors);
      ReadSectorsLength(image, n, tail);
      assert |sectors| * n == n + (|sectors| - 1) * n;
    }
  }

  /** The tail of a list of sectors inside the image is inside it too. */
  lemma TailInImage(image: seq<Byte>, bytesPerSector: nat, sectors: seq<int>)
    requires SectorsInImage(image, bytesPerSector, sectors) && sectors != []
    ensures SectorsInImage(image, bytesPerSector, sectors[1..])
  {
    var tail := sectors[1..];
    forall i | 0 <= i < |tail| ensures 0 <= tail[i] && tail[i] * bytesPerSector + bytesPerSector <= |image| {
      assert tail[i] == sectors[i + 1];
    }
  }

  /** Block 0 of a sequence that starts with one block is that block. */
  lemma BlockFirst<T>(first: seq<T>, rest: seq<T>, n: nat)
    requires |first| == n
    ensures n <= |first + rest| && Block(first + rest, n, 0) == first
  {
  }

  /** Block i of a read of sectors inside the image is sector i of the list. */
  lemma {:induction false} ReadSectorsBlock(image: seq<Byte>, bytesPerSector: nat, sectors: seq<int>, i: nat)
    requires SectorsInImage(image, bytesPerSector, sectors) && i < |sectors|
    ensures ReadSectors(image, bytesPerSector, sectors).Ok?
    ensures (i + 1) * bytesPerSector <= |ReadSectors(image, bytesPerSector, sectors).value|
    ensures Block(ReadSectors(image, bytesPerSector, sectors).value, bytesPerSector, i) ==
              SectorBytes(image, bytesPerSector, sectors[i])
  {
    var n := bytesPerSector;
    ReadSectorsLength(image, n, sectors);
    var first := SectorBytes(image, n, sectors[0]);
    var tail := sectors[1..];
    TailInImage(image, n, sectors);
    ReadSectorsLength(image, n, tail);
    var rest := ReadSectors(image, n, tail).value;
    if i == 0 {
      BlockFirst(first, rest, n);
    } else {
      BlockAfterFirst(first, rest, n, i, |sectors|);
      ReadSectorsBlock(image, n, tail, i - 1);
      assert tail[i - 1] == sectors[i];
    }
  }

  /** The data of a finished chain whose sectors lie inside the image is a full sector for each
      sector of each of its clusters, in chain order. */
  lemma ChainDataOfRun(v: Volume, cs: seq<nat>)
    requires IsRun(v.fat, cs) && Entry(v.fat, cs[0]) != 0
    requires 0 < cs[0] * 4 + 4 < v.boot.sectorsPerFat
    requires SectorsInImage(v.image, v.boot.bytesPerSector, Sectors(v.boot, cs))
    ensures ChainData(v, cs[0]) == ReadSectors(v.image, v.boot.bytesPerSector, Sectors(v.boot, cs))
    ensures ChainData(v, cs[0]).Ok?
    ensures |ChainData(v, cs[0]).value| == |cs| * v.boot.sectorsPerCluster * v.boot.bytesPerSector
  {
    ChainSectorsOfRun(v.boot, v.fat, cs);
    ReadSectorsLength(v.image, v.boot.bytesPerSector, Sectors(v.boot, cs));
  }

  /** What `_get_content` returns: up to 128 bytes of content and, for an allocated chain, up to
      32 bytes of slack. */
  datatype Extract = Extract(content: seq<Byte>, slack: Option<seq<Byte>>)

  /** Content preview and slack of a file that starts at `cluster` and holds `filesize` bytes.  For an
      allocated chain both come from its data, the slack from offset filesize on; for an
      unallocated one the preview is read where the cluster would be, and there is no slack. */
  function Content(v: Volume, cluster: int, filesize: nat): Result<Extract> {
    var minSize := Min(128, filesize);
    var data :- ChainData(v, cluster);
    if data != [] then
      Ok(Extract(Slice(data, 0, minSize), Some(Slice(data, filesize, filesize + 32))))
    else
      var bytes :- SeekRead(v.image, ToSector(v.boot, cluster) * v.boot.bytesPerSector, minSize);
      Ok(Extract(bytes, None))
  }

  /** The content preview holds at most 128 bytes and at most `filesize`, the slack at most 32;
      the read fails exactly when the chain fails or the fallback seek is negative; there is slack
      exactly when the chain has data, and then preview and slack are the chain's bytes at offsets
      0 and filesize; without it the preview is the image's bytes where the cluster would be. */
  lemma ContentSpec(v: Volume, cluster: int, filesize: nat)
    ensures var r := Content(v, cluster, filesize);
      && (r.Ok? ==> |r.value.content| <= Min(128, filesize))
      && (r.Ok? && r.value.slack.Some? ==> |r.value.slack.value| <= 32)
      && (r.Ok? <==> (ChainData(v, cluster).Ok? &&
            (ChainData(v, cluster).value == [] ==> ToSector(v.boot, cluster) * v.boot.bytesPerSector >= 0)))
      && (r.Ok? ==> (r.value.slack.Some? <==> ChainData(v, cluster).value != []))
    ensures var r := Content(v, cluster, filesize);
      r.Ok? && r.value.slack.Some? ==>
        var d := ChainData(v, cluster).value;
        && r.value.content <= d
        && |r.value.content| == Min(Min(128, filesize), |d|)
        && (forall k :: 0 <= k < |r.value.slack.value| ==> filesize + k < |d| && r.value.slack.value[k] == d[filesize + k])
        && |r.value.slack.value| == if filesize < |d| then Min(32, |d| - filesize) else 0
    ensures var r := Content(v, cluster, filesize);
      r.Ok? && r.value.slack.None? ==>
        var offset := ToSector(v.boot, cluster) * v.boot.bytesPerSector;
        && offset >= 0
        && r.value.content <= v.image[Min(offset, |v.image|)..]
        && |r.value.content| == if offset < |v.image| then Min(Min(128, filesize), |v.image| - offset) else 0
  {
  }
}
