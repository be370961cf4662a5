# fsstat: a FAT32 image decoder, modelled in Dafny

`fsstat.py` reads a raw FAT32 volume image without mounting it. Its `Fat` class does the following:

- It decodes the reserved (boot) sector into a dictionary of geometry values.
- It keeps FAT copy 0 as a byte buffer.
- It follows cluster chains through that table to lists of sectors.
- It reads the bytes of a chain, slack space included.
- It walks the directory tree recursively, producing one dictionary per directory record.
  - Each subdirectory's records come just before the subdirectory's own record.
  - For ordinary files, the dictionary adds the size, the content sectors, a preview of up to 128 bytes, and up to 32 bytes of slack.

This project models that core and proves properties of it. The image is a `seq<Byte>`.

- Python slicing is `Bytes.Slice`, which clamps both ends.
- A `seek` followed by a `read` is `Bytes.ReadAt`: the read comes back short past the end of the image.
- Every exception the source can raise is an `Err` of `Results.Error`:
  - the two `assert`s;
  - the division by zero;
  - a seek to a negative offset;
  - the `IndexError` on a record cut short;
  - the recursion limit.

Every outcome is therefore a value.

The modules follow the source:

| module | contents |
|---|---|
| `Results` | outcomes, and accumulating a result behind a prefix |
| `Bytes` | bytes, slicing, and `unpack` (unsigned little-endian) |
| `Geometry` | the boot dictionary, FAT copy 0, and the cluster/sector arithmetic |
| `Chain` | FAT entries and chains (`_get_sectors`) |
| `ClusterData` | chain data (`_retrieve_data`), and content and slack (`_get_content`) |
| `Directory` | the first cluster, records, and the directory walk (`parse_dir`) |
| `FsStat` | the `Fat` class |

The class `FsStat.Fat` keeps the source's imperative form. Its fields are the image, the boot dictionary and the FAT. Each of its methods follows the Python line by line and is proved equal to a specification function:

| method | specification function |
|---|---|
| `GetSectors` | `Chain.ChainSectors` |
| `RetrieveData` | `ClusterData.ChainData` |
| `GetContent` | `ClusterData.Content` |
| `ParseDir` | `Directory.Walk` |
| `CompleteEntry` | `Directory.Visit` |

The lemmas state what the source promises about those functions:
- round trips of the byte decoding;
- a chain is found exactly when one exists;
- the sectors of a chain are exactly the sectors of its clusters, in order and without repeats;
- the data of a chain is one full sector per listed sector;
- the listing holds one entry per record up to the terminator, each described by its bytes;
- the recursion limit only turns a listing into an error.

## Model

| member | source | states |
|---|---|---|
| Bytes.Unpack | fsstat.py:11-13 | an unsigned little-endian value of n bytes is below 256^n |
| Bytes.UnpackIsPositionalSum | fsstat.py:11-13 | the value equals the sum of byte i times 256^i, least significant byte first |
| Bytes.UnpackEncode | fsstat.py:11-13 | encoding a value below 256^k in k bytes and unpacking it gives the value back |
| Bytes.EncodeUnpack | fsstat.py:11-13 | unpacking bytes and encoding the value in as many bytes gives the bytes back |
| Bytes.UnpackAppend | fsstat.py:11-13 | the value of a + b is the value of a plus 256^\|a\| times the value of b |
| Bytes.Slice | fsstat.py:256 | a Python slice with non-negative bounds clamps to the sequence: its length and its elements at their offsets |
| Bytes.ReadAt | fsstat.py:163-164 | a read after a seek gives min(n, bytes left after the offset) bytes, none past the end, each the image byte at its offset |
| Bytes.SeekRead | fsstat.py:214-215 | a seek fails exactly at a negative offset, and otherwise reads as ReadAt |
| Bytes.U16AtIsUnpack | fsstat.py:180-181 | the 16-bit field at an offset is the unpacked two-byte slice there |
| Bytes.U32AtIsUnpack | fsstat.py:282 | the 32-bit field at an offset is the unpacked four-byte slice there |
| Geometry.ReadField | fsstat.py:54-67 | a field read from 1, 2 or 4 bytes is below 2^8, 2^16 or 2^32 |
| Geometry.ReadFieldIsUnpack | fsstat.py:54-67 | each boot field is the unpacked read of its width at its offset |
| Geometry.Derive | fsstat.py:68-74 | the five derived entries are computed from the seven read ones, which are kept unchanged |
| Geometry.DecodeBoot | fsstat.py:54-74 | the decoded dictionary has its derived entries consistent and each read field within its width |
| Geometry.DecodeEncodeBoot | fsstat.py:54-67 | laying the seven fields of a dictionary over any sector of at least 48 bytes, at their offsets, and decoding gives the dictionary back, whatever the other bytes hold |
| Geometry.LoadFat | fsstat.py:75-76 | FAT copy 0 holds min(sectors_per_fat × bytes_per_sector, bytes left after its start) bytes, each the image byte at fat0_sector_start × bytes_per_sector plus its offset |
| Geometry.ClusterLayout | fsstat.py:89-108 | `_to_sector` puts cluster 2 right after the reserved sectors and every FAT copy; `_end_sector` makes each cluster span sectors_per_cluster sectors, the next cluster starting right after it, and no cluster from 2 on starts before the data region |
| Geometry.ClusterRange | fsstat.py:128 | a cluster spans sectors_per_cluster sectors |
| Geometry.RangeAt | fsstat.py:128 | element i of `range(lo, hi)` is lo + i |
| Geometry.ClusterRangeAt | fsstat.py:97-108 | sector i of a cluster is its first sector plus i |
| Geometry.ClusterRangesDisjoint | fsstat.py:97-108 | two different clusters never share a sector |
| Chain.Entry | fsstat.py:125-126 | a FAT entry is a 32-bit value, and 0 past the end of the table |
| Chain.EntryIsUnpack | fsstat.py:125-126 | the entry of cluster n is the unpacked slice fat[4n : 4n + 4] |
| Chain.ChainSectors | fsstat.py:123 | a lookup that succeeds passed the offset guard |
| Chain.ChainSectorsOutcomes | fsstat.py:123-135 | the guard fails exactly outside (0, sectors_per_fat); an unallocated entry gives no sectors; EndlessChain is reported exactly when the entry is allocated and the chain never ends; a non-empty result is the sectors of a finished chain |
| Chain.ChainTailIsFollow | fsstat.py:129-134 | the `while` loop from any cluster, after that cluster's own sectors, lists the sectors of exactly the clusters the links visit, or reports EndlessChain when the links never end |
| Chain.ChainSectorsIsFollow | fsstat.py:127-134 | the link-by-link walk lists the sectors of exactly the clusters the chain visits |
| Chain.ChainSectorsOfRun | fsstat.py:127-134 | a finished chain from an allocated entry gives its clusters' sectors in chain order, sectors_per_cluster per cluster, none repeated |
| Chain.FollowSound | fsstat.py:129-134 | a chain found by the bounded walk is a finished chain starting at the given cluster |
| Chain.FollowComplete | fsstat.py:129-134 | every finished chain within the bound is found by the walk |
| Chain.FollowFindsRun | fsstat.py:129-134 | the walk bounded by MaxLinks finds a chain exactly when following the links reaches an end-of-chain entry |
| Chain.RunBounded | fsstat.py:129-134 | a finished chain has at most MaxLinks + 1 clusters |
| Chain.RunLinks | fsstat.py:129-134 | in a finished chain each cluster but the last links to the next, and the last holds an end-of-chain value |
| Chain.RunDistinct | fsstat.py:129-134 | a finished chain never visits a cluster twice |
| Chain.SectorsLength | fsstat.py:128-133 | a list of clusters has sectors_per_cluster sectors per cluster |
| Chain.SectorsAppend | fsstat.py:131-133 | appending a cluster appends its sectors |
| Chain.SectorsCover | fsstat.py:128-133 | every sector of every listed cluster is listed |
| Chain.SectorsMember | fsstat.py:128-133 | every listed sector belongs to one of the listed clusters |
| Chain.SectorsDistinct | fsstat.py:128-133 | distinct clusters give a sector list without repeats |
| FsStat.Fat.GetSectors | fsstat.py:110-135 | the imperative walk returns exactly ChainSectors |
| ClusterData.ReadSectorsFails | fsstat.py:162-164 | reading sectors fails exactly when some sector lies at a negative byte offset |
| ClusterData.ReadSectorsAtMost | fsstat.py:162-164 | the loop reads at most bytes_per_sector bytes per sector |
| ClusterData.ReadSectorsLength | fsstat.py:162-164 | sectors inside the image read as bytes_per_sector bytes each |
| ClusterData.ReadSectorsBlock | fsstat.py:160-165 | block i of the data is the bytes of sector i of the list |
| ClusterData.ChainDataOutcomes | fsstat.py:160-165 | `_retrieve_data` fails with the chain's own error when the chain lookup fails; otherwise it fails exactly when a listed sector lies at a negative byte offset, an unallocated chain gives no bytes, and a successful read has at most bytes_per_sector bytes per sector |
| ClusterData.ChainDataOfRun | fsstat.py:160-165 | the data of a finished chain inside the image is a full sector for each of its sectors, in chain order |
| FsStat.Fat.RetrieveData | fsstat.py:137-165 | the sector-by-sector loop returns exactly ChainData |
| ClusterData.ContentSpec | fsstat.py:207-215 | `_get_content`: the preview has at most min(128, filesize) bytes and the slack at most 32; the read fails exactly when the chain fails or the fallback seek is negative; there is slack exactly when the chain has data, and then the preview is the data's prefix and the slack is the data from offset filesize; otherwise the preview is the image's bytes at the cluster's sector |
| FsStat.Fat.GetContent | fsstat.py:189-215 | returns exactly Content |
| FsStat.Fat.ParseReservedSector | fsstat.py:30-76 | the dictionary is the decoded boot sector and the FAT is FAT copy 0 read with it |
| FsStat.Fat.constructor | fsstat.py:17-23 | opening an image parses its reserved sector |
| Directory.EntryBytesSpec | fsstat.py:255-256 | record k is min(32, bytes left after 32k) bytes, none past the end of the data, each the data byte at 32k plus its offset |
| Directory.ClusterField | fsstat.py:180-182 | the first-cluster field is a 32-bit value |
| Directory.FirstClusterRoundTrip | fsstat.py:180-182 | writing any 32-bit cluster into the high half at offset 20 and the low half at offset 26 reads back that cluster |
| Directory.FirstClusterExample | fsstat.py:180-182 | high half 1 and low half 2 give cluster 65538 |
| Directory.FirstClusterQuotient | fsstat.py:180-187 | `_get_first_cluster`: a zero sectors_per_cluster raises; a cluster up to total_sectors / sectors_per_cluster is returned; a larger one fails the assertion |
| Directory.FileRecordKeys | fsstat.py:276-286 | the file keys of a record: an "other" record keeps the seven common keys and gains its first cluster; when that is not 0 it also gains the size at offset 28, with the content, slack and sectors of its chain |
| Directory.VisitDescribes | fsstat.py:257-286 | the visit of one record: every visited record is described by its bytes: type, name, deleted flag, position, first cluster for dir and other records, file keys only for others with a non-zero first cluster, and the nested listing only for subdirectories |
| Directory.WalkRecords | fsstat.py:253-289 | `parse_dir`: a successful listing flattens one visit per record, record i for listing i, and the record after the last one listed is the terminator |
| Directory.ScanListed | fsstat.py:255-288 | the record loop from record k: a successful scan lists, in order, the visits of records k, k + 1, … and stops at a terminator record |
| Directory.ListedAt | fsstat.py:255-288 | in such a listing from record k, element j - k is the visit of record j |
| Directory.ListedEach | fsstat.py:255-288 | in such a listing from record 0, element i is the visit of record i |
| Directory.ListedStop | fsstat.py:261-263 | such a listing of n elements from record k ends at record k + n, a terminator |
| Directory.FlattenAppend | fsstat.py:275 | the records of two runs of listings are those of each in turn |
| Directory.FlattenPlacement | fsstat.py:275-288 | a subdirectory's records come immediately before its own record, after everything listed earlier |
| Directory.SmallFatFails | fsstat.py:123 | with sectors_per_fat at most 4 no directory can be listed: the FAT offset guard fails for every cluster |
| Directory.UnallocatedDirectoryFails | fsstat.py:256-261 | a directory whose FAT entry is 0 has no data, and indexing its first record raises |
| Directory.WalkDepth | fsstat.py:275 | a listing that succeeds is unchanged by a larger recursion limit |
| FsStat.Fat.ParseDir | fsstat.py:217-289 | the record loop returns exactly Walk |
| FsStat.Fat.CompleteEntry | fsstat.py:270-286 | completing one record returns exactly Visit |

## Left out

- Opening and closing the file (`__init__` opening it, `__del__` closing it): the image is given as a byte sequence. I/O errors other than a negative seek cannot happen on a sequence.
- `info()` and `main()`: they print JSON and handle the command line. Key order and JSON formatting are not modelled.
- `hw4utils.get_entry_type` and `hw4utils.parse_name` are parameters of the model (`Directory.Hw4Utils`). That module's code is not part of this model; only its terminator name `hex(0)` = "0x0" is fixed.
- `str()` around the content preview and slack: the model keeps the raw bytes, not their Python text form.
- FsStat.Fat.GetSectors: on a chain that never reaches an end-of-chain entry the source loops forever. The model stops with `EndlessChain` after MaxLinks links instead. `Chain.FollowFindsRun` proves this happens exactly for chains that never end.
- Directory.FirstClusterQuotient: line 183 divides in floating point, and the model compares exactly in integers (cluster × sectors_per_cluster ≤ total_sectors). Rounding of very large float quotients is not modelled.
- FsStat.Fat.ParseDir: Python's recursion limit is the parameter `depth`, and exceeding it is `RecursionLimit`. A directory that contains one of its ancestors recurses until that limit, as in the source.
- FsStat.Fat.ParseDir: the loop condition `not is_dir or not is_unallocated` is always true, because `is_unallocated` is never set. The loop ends only at the terminator record or when indexing a short record raises. The model keeps the flags with this effect.
- FsStat.Fat.RetrieveData: the `ignore_unallocated` flag is accepted and has no effect, as in the code. Its docstring (fsstat.py:147-155) says that with the flag set an unallocated cluster is read as that cluster's own sectors. The code at fsstat.py:160-165 never reads the flag, and the model follows the code. `_get_content` reads that fallback itself.
- Geometry.DecodeBoot: the code refuses no geometry at parse time, and the model accepts every boot sector. A volume with sectors_per_fat at most 4 can list no directory (`Directory.SmallFatFails`). A total_sectors of 0 only makes every first-cluster field above 0 fail (`Directory.FirstClusterQuotient`); a root directory at cluster 2 can still be listed.
- The entry value 0x0FFFFFF8 (`Chain.MaxLinkValue`) is followed as a link, as the code's `<=` test does. Only values above it end a chain.
