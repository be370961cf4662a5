/** The decoder object: it holds the image, the boot dictionary and FAT copy 0, follows chains,
    reads chain data and content, and lists directories.  Each method is proved to compute the
    function of the same name in the Chain, ClusterData and Directory modules. */
module FsStat {
  import opened Results
  import opened Bytes
  import opened Geometry
  import opened Chain
  import opened ClusterData
  import opened Directory

  class Fat {
    /** The bytes of the image file, read by seeking and reading. */
    const image: seq<Byte>
    /** The helpers that name a record's type and decode its name. */
    const utils: Hw4Utils
    /** The boot dictionary. */
    var boot: Boot
    /** FAT copy 0. */
    var fat: seq<Byte>

    /** The parsed volume as the functions of the model see it. */
    function View(): Volume
      reads this
    {
      Volume(image, boot, fat)
    }

    /** Opening an image parses its reserved sector straight away. */
    constructor (image: seq<Byte>, utils: Hw4Utils)
      ensures this.image == image && this.utils == utils
      ensures boot == DecodeBoot(image) && fat == LoadFat(image, boot)
    {
      this.image := image;
      this.utils := utils;
      new;
      ParseReservedSector();
    }

    /** Fills the boot dictionary key by key from the boot sector, then reads FAT copy 0. */
    method ParseReservedSector()
      modifies this
      ensures boot == DecodeBoot(image) && fat == LoadFat(image, boot)
    {
      var bytesPerSector := ReadField(image, 11, 2);
      var sectorsPerCluster := ReadField(image, 13, 1);
      var reservedSectors := ReadField(image, 14, 2);
      var numberOfFats := ReadField(image, 16, 1);
      var totalSectors := ReadField(image, 32, 4);
      var sectorsPerFat := ReadField(image, 36, 4);
      var rootDirFirstCluster := ReadField(image, 44, 4);
      boot := Derive(bytesPerSector, sectorsPerCluster, reservedSectors, numberOfFats, totalSectors, sectorsPerFat,
                     rootDirFirstCluster);
      NatProduct(boot.fat0SectorStart, boot.bytesPerSector);
      NatProduct(boot.sectorsPerFat, boot.bytesPerSector);
      fat := ReadAt(image, boot.fat0SectorStart * boot.bytesPerSector, boot.sectorsPerFat * boot.bytesPerSector);
    }

    /** The sectors of the chain at table entry `number`, walked link by link.  The walk gives up
        with EndlessChain once it has followed more links than any finished chain has. */
    method GetSectors(number: int) returns (r: Result<seq<int>>)
      ensures r == ChainSectors(boot, fat, number)
    {
      if !(0 < number * 4 + 4 < boot.sectorsPerFat) {
        return Err(FatIndexOutOfRange(number));
      }
      var listOfSectors: seq<int> := [];
      var byteOffset := number * 4;
      // unpack(fat[byteOffset : byteOffset + 4]), as EntryIsUnpack shows
      var entryValue := U32At(fat, byteOffset);
      if entryValue != 0 {
        listOfSectors := listOfSectors + ClusterRange(boot, number);
        assert listOfSectors == ClusterRange(boot, number);
        ghost var cur: nat := number;
        var links := 0;
        assert ChainSectors(boot, fat, number) == Then(listOfSectors, ChainTail(boot, fat, number, cur, MaxLinks(fat) - links));
        while entryValue <= MaxLinkValue
          invariant links <= MaxLinks(fat)
          invariant entryValue == Entry(fat, cur)
          invariant ChainSectors(boot, fat, number) == Then(listOfSectors, ChainTail(boot, fat, number, cur, MaxLinks(fat) - links))
          decreases MaxLinks(fat) - links
        {
          if links == MaxLinks(fat) {
            return Err(EndlessChain(number));
          }
          byteOffset := entryValue * 4;
          ThenThen(listOfSectors, ClusterRange(boot, entryValue),
                   ChainTail(boot, fat, number, entryValue, MaxLinks(fat) - links - 1));
          listOfSectors := listOfSectors + ClusterRange(boot, entryValue);
          cur := entryValue;
          entryValue := U32At(fat, byteOffset);
          links := links + 1;
        }
        assert listOfSectors + [] == listOfSectors;
      }
      return Ok(listOfSectors);
    }

    /** All bytes of the chain at `cluster`, read sector by sector; the flag is accepted and unused. */
    method RetrieveData(cluster: int, ignoreUnallocated: bool) returns (r: Result<seq<Byte>>)
      ensures r == ChainData(View(), cluster)
    {
      var data: seq<Byte> := [];
      var sectorList :- GetSectors(cluster);
      assert sectorList[0..] == sectorList;
      ThenNothing(ReadSectors(image, boot.bytesPerSector, sectorList));
      for i := 0 to |sectorList|
        invariant ReadSectors(image, boot.bytesPerSector, sectorList)
               == Then(data, ReadSectors(image, boot.bytesPerSector, sectorList[i..]))
      {
        var offset := sectorList[i] * boot.bytesPerSector;
        if offset < 0 {
          return Err(NegativeSeek(offset));
        }
        ReadSectorsFirst(image, boot.bytesPerSector, sectorList[i..]);
        assert sectorList[i..][1..] == sectorList[i + 1..];
        ThenThen(data, ReadAt(image, offset, boot.bytesPerSector), ReadSectors(image, boot.bytesPerSector, sectorList[i + 1..]));
        data := data + ReadAt(image, offset, boot.bytesPerSector);
      }
      assert sectorList[|sectorList|..] == [];
      assert data + [] == data;
      return Ok(data);
    }

    /** The content preview and slack of a file of `filesize` bytes starting at `cluster`. */
    method GetContent(cluster: int, filesize: nat) returns (r: Result<Extract>)
      ensures r == Content(View(), cluster, filesize)
    {
      var minSize := Min(128, filesize);
      var data :- RetrieveData(cluster, true);
      if data != [] {
        var fileContent := Slice(data, 0, minSize);
        var slack := Slice(data, filesize, filesize + 32);
        return Ok(Extract(fileContent, Some(slack)));
      } else {
        var offset := ToSector(boot, cluster) * boot.bytesPerSector;
        if offset < 0 {
          return Err(NegativeSeek(offset));
        }
        return Ok(Extract(ReadAt(image, offset, minSize), None));
      }
    }

    /** The listing of the directory at `cluster`: record after record, each subdirectory's
        listing before its own record, until the terminator record.  The directory's data and
        sectors are read again for every record, as the source does.  `depth` is how many more
        levels of recursion the interpreter allows. */
    method ParseDir(cluster: nat, parent: string, depth: nat) returns (r: Result<seq<Record>>)
      ensures r == Walk(View(), utils, cluster, parent, depth)
      decreases depth, 1
    {
      var directoryEntries: seq<Record> := [];
      var entryNum: nat := 0;
      var isUnallocated := false;
      var isDir := false;
      ThenNothing(ListFrom(View(), utils, cluster, parent, 0, depth));
      ghost var total := ChainData(View(), cluster);
      while !isDir || !isUnallocated
        invariant !isUnallocated
        invariant Walk(View(), utils, cluster, parent, depth)
               == Then(directoryEntries, ListFrom(View(), utils, cluster, parent, entryNum, depth))
        decreases if total.Ok? then |total.value| - Min(32 * entryNum, |total.value|) else 0
      {
        var byteOffset := 32 * entryNum;
        var data :- RetrieveData(cluster, true);
        var entryData := Slice(data, byteOffset, byteOffset + 32);
        // the chain was resolved once already while reading the data, so this lookup succeeds
        var dirSectors := GetSectors(cluster);
        ListFromStep(View(), utils, cluster, parent, entryNum, depth);
        assert entryData == EntryBytes(data, entryNum);
        if |entryData| < 12 {
          return Err(EntryTruncated(cluster, entryNum));
        }
        var entryType := utils.getEntryType(entryData[11]);
        if entryType == Terminator {
          assert directoryEntries + [] == directoryEntries;
          return Ok(directoryEntries);
        }
        var name := utils.parseName(entryData);
        var deleted := false;
        if entryData[0] == DeletedMark {
          deleted := true;
        }
        var entry := Record(parent, cluster, entryNum, dirSectors.value, entryType, name, deleted, None, None);
        assert entry == Base(utils, parent, cluster, dirSectors.value, entryNum, entryData);
        if IsSubdir(entryType, name) {
          isDir := true;
        }
        ghost var rest := ListFrom(View(), utils, cluster, parent, entryNum + 1, depth);
        var listing :- CompleteEntry(entry, entryData, depth);
        ThenThen(directoryEntries, listing.nested + [listing.record], rest);
        assert directoryEntries + listing.nested + [listing.record]
            == directoryEntries + (listing.nested + [listing.record]);
        entryNum := entryNum + 1;
        directoryEntries := directoryEntries + listing.nested + [listing.record];
      }
      assert false;
    }

    /** The rest of one record that is not the terminator, given its seven common keys: a
        subdirectory gets its first cluster and is listed (one level deeper) ahead of its record;
        an "other" record gets its first cluster and, when that is not 0, its size, content,
        slack and content sectors; any other record is complete as it is. */
    method CompleteEntry(entry: Record, entryData: seq<Byte>, depth: nat) returns (r: Result<Listing>)
      ensures r == Visit(View(), utils, entry, entryData, depth)
      decreases depth, 0
    {
      if IsSubdir(entry.entryType, entry.name) {
        var contentCluster :- FirstCluster(boot, entryData);
        if depth == 0 {
          return Err(RecursionLimit(contentCluster));
        }
        var nested :- ParseDir(contentCluster, "/" + entry.name, depth - 1);
        return Ok(Listing(nested, entry.(contentCluster := Some(contentCluster))));
      } else if IsOther(entry.entryType) {
        var contentCluster :- FirstCluster(boot, entryData);
        var record := entry.(contentCluster := Some(contentCluster));
        if contentCluster != 0 {
          // the size field at offset 28, unpacked as four little-endian bytes (U32AtIsUnpack)
          var filesize := U32At(entryData, 28);
          var content :- GetContent(contentCluster, filesize);
          // the chain was resolved once already while reading the content, so this lookup succeeds
          var contentSectors := GetSectors(contentCluster);
          record := record.(file := Some(FileInfo(filesize, contentSectors.value, content.content, content.slack)));
        }
        assert FileRecord(View(), entryData, entry) == Ok(record);
        return Ok(Listing([], record));
      }
      return Ok(Listing([], entry));
    }
  }
}
