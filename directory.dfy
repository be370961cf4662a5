/** Directory records: the first-cluster field, the per-record description, and the recursive walk. */
module Directory {
  import opened Results
  import opened Bytes
  import opened Geometry
  import opened Chain
  import opened ClusterData

  /** The two helpers of the companion module `hw4utils`, whose code is not part of this model:
      the type name of an attribute byte, and the name of a 32-byte record. */
  datatype Hw4Utils = Hw4Utils(getEntryType: Byte -> string, parseName: seq<Byte> -> string)

  /** The type name that ends a directory: Python's `hex(0)`. */
  const Terminator: string := "0x0"

  /** First byte of a deleted record. */
  const DeletedMark: Byte := 0xE5

  /** What a non-empty file record adds: its size, the sectors of its chain, the content preview and the slack. */
  datatype FileInfo = FileInfo(filesize: nat, contentSectors: seq<int>, content: seq<Byte>, slack: Option<seq<Byte>>)

  /** One dictionary of the listing.  `contentCluster` is present for subdirectories and for
      records of any type other than lfn, vol and dir; `file` only for those others with a
      non-zero first cluster. */
  datatype Record = Record(
    parent: string,
    dirCluster: nat,
    entryNum: nat,
    dirSectors: seq<int>,
    entryType: string,
    name: string,
    deleted: bool,
    contentCluster: Option<nat>,
    file: Option<FileInfo>)

  /** A scanned record together with the records of the subdirectory it opens, which the
      listing places just before it. */
  datatype Listing = Listing(nested: seq<Record>, record: Record)

  /** A dir record other than `.` and `..`: the walk descends into it. */
  predicate IsSubdir(entryType: string, name: string) {
    entryType == "dir" && name != "." && name != ".."
  }

  /** A record that is neither a long-name part, a volume label nor a directory. */
  predicate IsOther(entryType: string) {
    entryType != "lfn" && entryType != "vol" && entryType != "dir"
  }

  /** The 32 bytes of record k of a directory's data, fewer at its end. */
  function EntryBytes(data: seq<Byte>, k: nat): seq<Byte> {
    Slice(data, 32 * k, 32 * k + 32)
  }

  /** Record k is the 32 bytes at offset 32k when the data holds them, the rest of the data when it
      ends inside the record, and nothing beyond its end. */
  lemma EntryBytesSpec(data: seq<Byte>, k: nat)
    ensures var raw := EntryBytes(data, k);
      && |raw| == (if 32 * k < |data| then Min(32, |data| - 32 * k) else 0)
      && forall i :: 0 <= i < |raw| ==> 32 * k + i < |data| && raw[i] == data[32 * k + i]
  {
  }

  /** The first-cluster number of a record, from its high half at offset 20 and its low half at offset 26. */
  function ClusterField(raw: seq<Byte>): (r: nat)
    ensures r < 0x1_0000_0000
  {
    U16At(raw, 20) * 0x1_0000 + U16At(raw, 26)
  }

  /** The first cluster of a record, refused when it exceeds total_sectors / sectors_per_cluster
      (as an exact quotient, written here without division). */
  function FirstCluster(b: Boot, raw: seq<Byte>): Result<nat> {
    var contentCluster := ClusterField(raw);
    if b.sectorsPerCluster == 0 then Err(DivisionByZero)
    else if contentCluster * b.sectorsPerCluster > b.totalSectors then Err(ClusterOutOfRange(contentCluster))
    else Ok(contentCluster)
  }

  /** A 32-byte record whose first-cluster halves hold `cluster`, other bytes as in `raw`. */
  function WithFirstCluster(raw: seq<Byte>, cluster: nat): (r: seq<Byte>)
    requires |raw| == 32
    ensures |r| == 32
    ensures forall i :: 0 <= i < 32 && !(20 <= i < 22) && !(26 <= i < 28) ==> r[i] == raw[i]
  {
    raw[..20] + Encode(cluster / 0x1_0000, 2) + raw[22..26] + Encode(cluster % 0x1_0000, 2) + raw[28..]
  }

  /** The field reads back the cluster written into it, for every 32-bit cluster number. */
  lemma FirstClusterRoundTrip(raw: seq<Byte>, cluster: nat)
    requires |raw| == 32 && cluster < 0x1_0000_0000
    ensures ClusterField(WithFirstCluster(raw, cluster)) == cluster
  {
    var r := WithFirstCluster(raw, cluster);
    Pow256Values();
    assert Slice(r, 20, 22) == Encode(cluster / 0x1_0000, 2);
    assert Slice(r, 26, 28) == Encode(cluster % 0x1_0000, 2);
    UnpackEncode(cluster / 0x1_0000, 2);
    UnpackEncode(cluster % 0x1_0000, 2);
    U16AtIsUnpack(r, 20);
    U16AtIsUnpack(r, 26);
  }

  /** High half 1 and low half 2 give cluster 65538. */
  lemma FirstClusterExample(raw: seq<Byte>)
    requires |raw| == 32
    requires raw[20] == 1 && raw[21] == 0 && raw[26] == 2 && raw[27] == 0
    ensures ClusterField(raw) == 65538
  {
  }

  /** The outcomes of the first-cluster lookup, stated with the quotient total_sectors / sectors_per_cluster
      that the integer test stands for: a zero divisor raises, a field up to the quotient is the
      cluster, and a field beyond it fails the assertion. */
  lemma FirstClusterQuotient(b: Boot, raw: seq<Byte>)
    ensures b.sectorsPerCluster == 0 ==> FirstCluster(b, raw) == Err(DivisionByZero)
    ensures b.sectorsPerCluster > 0 && ClusterField(raw) <= b.totalSectors / b.sectorsPerCluster ==>
              FirstCluster(b, raw) == Ok(ClusterField(raw))
    ensures b.sectorsPerCluster > 0 && ClusterField(raw) > b.totalSectors / b.sectorsPerCluster ==>
              FirstCluster(b, raw) == Err(ClusterOutOfRange(ClusterField(raw)))
  {
    if b.sectorsPerCluster > 0 {
      WithinQuotient(ClusterField(raw), b.sectorsPerCluster, b.totalSectors);
    }
  }

  lemma WithinQuotient(c: nat, s: nat, t: nat)
    requires s > 0
    ensures c * s <= t <==> c <= t / s
  {
    var q := t / s;
    assert t == q * s + t % s && 0 <= t % s < s;
    if c <= q {
      MulMono(c, q, s);
    } else {
      MulMono(q + 1, c, s);
      assert (q + 1) * s == q * s + s;
    }
  }

  /** The seven keys every dictionary has, read from a record of at least 12 bytes. */
  function Base(u: Hw4Utils, parent: string, cluster: nat, sectors: seq<int>, k: nat, raw: seq<Byte>): Record
    requires |raw| >= 12
  {
    Record(parent, cluster, k, sectors, u.getEntryType(raw[11]), u.parseName(raw), raw[0] == DeletedMark, None, None)
  }

  /** The keys an "other" record adds: its first cluster and, when that is not 0, its size read at
      offset 28, its content preview and slack, and its chain's sectors. */
  function FileRecord(v: Volume, raw: seq<Byte>, base: Record): Result<Record> {
    var contentCluster :- FirstCluster(v.boot, raw);
    if contentCluster == 0 then Ok(base.(contentCluster := Some(0)))
    else
      var filesize := U32At(raw, 28);
      var content :- Content(v, contentCluster, filesize);
      // the chain was resolved once already while reading the content, so this lookup succeeds
      var contentSectors := ChainSectors(v.boot, v.fat, contentCluster).value;
      Ok(base.(contentCluster := Some(contentCluster),
               file := Some(FileInfo(filesize, contentSectors, content.content, content.slack))))
  }

  /** A completed "other" record keeps the seven common keys, gains its first cluster and, when
      that is not 0, the size at offset 28 with the content, slack and sectors of its chain. */
  lemma FileRecordKeys(v: Volume, raw: seq<Byte>, base: Record)
    ensures FileRecord(v, raw, base).Ok? ==>
      var r := FileRecord(v, raw, base).value;
      && r.(contentCluster := None, file := None) == base.(contentCluster := None, file := None)
      && r.contentCluster == Some(ClusterField(raw))
      && (ClusterField(raw) == 0 ==> r.file == base.file)
      && (ClusterField(raw) != 0 ==>
            && r.file.Some?
            && r.file.value.filesize == U32At(raw, 28)
            && Content(v, ClusterField(raw), r.file.value.filesize) == Ok(Extract(r.file.value.content, r.file.value.slack))
            && ChainSectors(v.boot, v.fat, ClusterField(raw)) == Ok(r.file.value.contentSectors))
  {
  }

  /** The records of a list of listings in order, each subdirectory's records before its own. */
  function Flatten(ls: seq<Listing>): seq<Record> {
    if ls == [] then [] else ls[0].nested + [ls[0].record] + Flatten(ls[1..])
  }

  /** The listing of a directory at `cluster`: its records from record 0 on.  `depth` is how many
      more directory levels the interpreter's stack allows. */
  function Walk(v: Volume, u: Hw4Utils, cluster: nat, parent: string, depth: nat): Result<seq<Record>>
    decreases depth, 1, 1
  {
    ListFrom(v, u, cluster, parent, 0, depth)
  }

  /** The part of a directory's listing that starts at record k: the directory's data and sectors are
      read, then its records are scanned from record k. */
  function ListFrom(v: Volume, u: Hw4Utils, cluster: nat, parent: string, k: nat, depth: nat): Result<seq<Record>>
    decreases depth, 1, 0
  {
    var data :- ChainData(v, cluster);
    var sectors :- ChainSectors(v.boot, v.fat, cluster);
    var ls :- Scan(v, u, cluster, parent, data, sectors, k, depth);
    Ok(Flatten(ls))
  }

  /** Records k, k + 1, ... of a directory, up to its terminator record.  A record cut short
      before its type byte ends the walk with an error. */
  function Scan(v: Volume, u: Hw4Utils, cluster: nat, parent: string, data: seq<Byte>, sectors: seq<int>,
                k: nat, depth: nat): Result<seq<Listing>>
    decreases depth, 0, |data| - Min(32 * k, |data|)
  {
    var raw := EntryBytes(data, k);
    if |raw| < 12 then Err(EntryTruncated(cluster, k))
    else if u.getEntryType(raw[11]) == Terminator then Ok([])
    else
      var listing :- Visit(v, u, Base(u, parent, cluster, sectors, k, raw), raw, depth);
      var rest :- Scan(v, u, cluster, parent, data, sectors, k + 1, depth);
      Ok([listing] + rest)
  }

  /** One record that is not the terminator: a subdirectory is walked (one level deeper) and listed
      before its record; an "other" record gets its file keys; lfn, vol, `.` and `..` records get
      only the seven common keys. */
  function Visit(v: Volume, u: Hw4Utils, base: Record, raw: seq<Byte>, depth: nat): Result<Listing>
    decreases depth, 0, 0
  {
    if IsSubdir(base.entryType, base.name) then
      var contentCluster :- FirstCluster(v.boot, raw);
      if depth == 0 then Err(RecursionLimit(contentCluster))
      else
        var nested :- Walk(v, u, contentCluster, "/" + base.name, depth - 1);
        Ok(Listing(nested, base.(contentCluster := Some(contentCluster))))
    else if IsOther(base.entryType) then
      var record :- FileRecord(v, raw, base);
      Ok(Listing([], record))
    else Ok(Listing([], base))
  }

  /** One record of the listing from record k: a record cut short ends it with an error, the
      terminator ends it with nothing more, and any other record's visit fails the listing or
      contributes its nested records and its own record ahead of the listing from record k + 1. */
  lemma ListFromStep(v: Volume, u: Hw4Utils, cluster: nat, parent: string, k: nat, depth: nat)
    requires ChainData(v, cluster).Ok? && ChainSectors(v.boot, v.fat, cluster).Ok?
    ensures var raw := EntryBytes(ChainData(v, cluster).value, k);
      |raw| < 12 ==> ListFrom(v, u, cluster, parent, k, depth) == Err(EntryTruncated(cluster, k))
    ensures var raw := EntryBytes(ChainData(v, cluster).value, k);
      |raw| >= 12 && u.getEntryType(raw[11]) == Terminator ==> ListFrom(v, u, cluster, parent, k, depth) == Ok([])
    ensures var raw := EntryBytes(ChainData(v, cluster).value, k);
      |raw| >= 12 && u.getEntryType(raw[11]) != Terminator ==>
        var visit := Visit(v, u, Base(u, parent, cluster, ChainSectors(v.boot, v.fat, cluster).value, k, raw), raw, depth);
        ListFrom(v, u, cluster, parent, k, depth) ==
          match visit
          case Err(e) => Err(e)
          case Ok(l) => Then(l.nested + [l.record], ListFrom(v, u, cluster, parent, k + 1, depth))
  {
    var data, sectors := ChainData(v, cluster).value, ChainSectors(v.boot, v.fat, cluster).value;
    var raw := EntryBytes(data, k);
    if |raw| >= 12 && u.getEntryType(raw[11]) != Terminator {
      var visit := Visit(v, u, Base(u, parent, cluster, sectors, k, raw), raw, depth);
      var next := Scan(v, u, cluster, parent, data, sectors, k + 1, depth);
      if visit.Ok? && next.Ok? {
        var l := visit.value;
        assert Flatten([l] + next.value) == l.nested + [l.record] + Flatten(next.value) by {
          assert ([l] + next.value)[1..] == next.value;
        }
      }
    }
  }

  /** Listings concatenate: the records of two runs of listings are those of each in turn. */
  lemma {:induction false} FlattenAppend(a: seq<Listing>, b: seq<Listing>)
    ensures Flatten(a + b) == Flatten(a) + Flatten(b)
  {
    if a != [] {
      assert (a + b)[1..] == a[1..] + b;
      FlattenAppend(a[1..], b);
    } else {
      assert a + b == b;
    }
  }

  /** In the listing, the records of the subdirectory opened by listing i come immediately before
      that listing's own record, after everything listed earlier and before everything later. */
  lemma {:induction false} FlattenPlacement(ls: seq<Listing>, i: nat)
    requires i < |ls|
    ensures Flatten(ls) == Flatten(ls[..i]) + ls[i].nested + [ls[i].record] + Flatten(ls[i + 1..])
  {
    var before, l, after := ls[..i], ls[i], ls[i + 1..];
    assert ls == (before + [l]) + after;
    FlattenAppend(before + [l], after);
    FlattenAppend(before, [l]);
    assert [l][1..] == [];
    assert Flatten([l]) == l.nested + [l.record];
  }

  /** What a listing built from record k of a directory says about that record's bytes. */
  ghost predicate Describes(v: Volume, u: Hw4Utils, cluster: nat, parent: string, sectors: seq<int>,
                            k: nat, raw: seq<Byte>, depth: nat, l: Listing)
  {
    var r := l.record;
    && |raw| >= 12
    && r.entryType == u.getEntryType(raw[11]) && r.entryType != Terminator
    && r.name == u.parseName(raw)
    && r.parent == parent && r.dirCluster == cluster && r.entryNum == k && r.dirSectors == sectors
    && (r.deleted <==> raw[0] == DeletedMark)
    && (r.contentCluster.Some? <==> IsSubdir(r.entryType, r.name) || IsOther(r.entryType))
    && (r.contentCluster.Some? ==> FirstCluster(v.boot, raw) == Ok(r.contentCluster.value))
    && (r.file.Some? <==> IsOther(r.entryType) && ClusterField(raw) != 0)
    && (r.file.Some? ==>
          && r.file.value.filesize == U32At(raw, 28)
          && Content(v, ClusterField(raw), r.file.value.filesize) == Ok(Extract(r.file.value.content, r.file.value.slack))
          && ChainSectors(v.boot, v.fat, ClusterField(raw)) == Ok(r.file.value.contentSectors))
    && (IsSubdir(r.entryType, r.name) ==>
          depth > 0 && Walk(v, u, ClusterField(raw), "/" + r.name, depth - 1) == Ok(l.nested))
    && (!IsSubdir(r.entryType, r.name) ==> l.nested == [])
  }

  /** Record j of a directory's data is present, is not the terminator, and its visit gives `l`. */
  ghost predicate VisitsTo(v: Volume, u: Hw4Utils, cluster: nat, parent: string, data: seq<Byte>,
                           sectors: seq<int>, j: nat, depth: nat, l: Listing)
  {
    var raw := EntryBytes(data, j);
    && |raw| >= 12 && u.getEntryType(raw[11]) != Terminator
    && Visit(v, u, Base(u, parent, cluster, sectors, j, raw), raw, depth) == Ok(l)
  }

  /** Record j of a directory's data is present and has the terminator type. */
  predicate TerminatorAt(u: Hw4Utils, data: seq<Byte>, j: nat) {
    var raw := EntryBytes(data, j);
    |raw| >= 12 && u.getEntryType(raw[11]) == Terminator
  }

  /** `ls` holds, in order, one listing for each of the positions k, k + 1, ... that `visits` accepts
      with it, and `ends` accepts the position after the last of them. */
  ghost predicate Listed<L>(visits: (nat, L) -> bool, ends: nat -> bool, k: nat, ls: seq<L>)
    decreases |ls|
  {
    if ls == [] then ends(k)
    else visits(k, ls[0]) && Listed(visits, ends, k + 1, ls[1..])
  }

  /** Listing j - k of a run listed from position k belongs to position j. */
  lemma {:induction false} ListedAt<L>(visits: (nat, L) -> bool, ends: nat -> bool, k: nat, ls: seq<L>, j: nat)
    requires Listed(visits, ends, k, ls)
    requires k <= j < k + |ls|
    ensures visits(j, ls[j - k])
    decreases j - k
  {
    if j > k {
      ListedAt(visits, ends, k + 1, ls[1..], j);
      assert ls[j - k] == ls[1..][j - (k + 1)];
    }
  }

  /** The position just after the last listing of a run listed from position k is accepted by `ends`. */
  lemma {:induction false} ListedStop<L>(visits: (nat, L) -> bool, ends: nat -> bool, k: nat, ls: seq<L>)
    requires Listed(visits, ends, k, ls)
    ensures ends(k + |ls|)
    decreases |ls|
  {
    if ls != [] {
      ListedStop(visits, ends, k + 1, ls[1..]);
    }
  }

  /** A listing that starts at record 0 visits record i for its element i. */
  lemma ListedEach<L>(visits: (nat, L) -> bool, ends: nat -> bool, ls: seq<L>)
    requires Listed(visits, ends, 0, ls)
    ensures forall i :: 0 <= i < |ls| ==> visits(i, ls[i])
  {
    forall i | 0 <= i < |ls| ensures visits(i, ls[i]) {
      ListedAt(visits, ends, 0, ls, i);
    }
  }

  /** Which listing each record of a directory's data gives when visited. */
  ghost function RecordVisits(v: Volume, u: Hw4Utils, cluster: nat, parent: string, data: seq<Byte>,
                              sectors: seq<int>, depth: nat): (nat, Listing) -> bool
  {
    (j: nat, l: Listing) => VisitsTo(v, u, cluster, parent, data, sectors, j, depth, l)
  }

  /** Which records of a directory's data are its terminator. */
  function Terminators(u: Hw4Utils, data: seq<Byte>): nat -> bool {
    (j: nat) => TerminatorAt(u, data, j)
  }

  /** A successful scan from record k lists the visits of records k, k + 1, ... up to the terminator. */
  lemma {:induction false} ScanListed(v: Volume, u: Hw4Utils, cluster: nat, parent: string, data: seq<Byte>,
                                      sectors: seq<int>, k: nat, depth: nat, ls: seq<Listing>)
    requires Scan(v, u, cluster, parent, data, sectors, k, depth) == Ok(ls)
    ensures Listed(RecordVisits(v, u, cluster, parent, data, sectors, depth), Terminators(u, data), k, ls)
    decreases |ls|
  {
    ScanNext(v, u, cluster, parent, data, sectors, k, depth, ls);
    if ls != [] {
      ScanListed(v, u, cluster, parent, data, sectors, k + 1, depth, ls[1..]);
    }
  }

  /** One step of a successful scan: record k is present, and unless it is the terminator, its
      visit heads the listing and the scan goes on from record k + 1. */
  lemma ScanNext(v: Volume, u: Hw4Utils, cluster: nat, parent: string, data: seq<Byte>,
                 sectors: seq<int>, k: nat, depth: nat, ls: seq<Listing>)
    requires Scan(v, u, cluster, parent, data, sectors, k, depth) == Ok(ls)
    ensures |EntryBytes(data, k)| >= 12
    ensures ls == [] <==> TerminatorAt(u, data, k)
    ensures ls != [] ==>
      && Scan(v, u, cluster, parent, data, sectors, k + 1, depth) == Ok(ls[1..])
      && VisitsTo(v, u, cluster, parent, data, sectors, k, depth, ls[0])
  {
  }

  /** A successful listing is the flattening of one listing per record, record i visited for
      listing i, up to the terminator record, which is not listed. */
  lemma WalkRecords(v: Volume, u: Hw4Utils, cluster: nat, parent: string, depth: nat)
    requires Walk(v, u, cluster, parent, depth).Ok?
    ensures ChainData(v, cluster).Ok? && ChainSectors(v.boot, v.fat, cluster).Ok?
    ensures var data, sectors := ChainData(v, cluster).value, ChainSectors(v.boot, v.fat, cluster).value;
      && Scan(v, u, cluster, parent, data, sectors, 0, depth).Ok?
      && var ls := Scan(v, u, cluster, parent, data, sectors, 0, depth).value;
      && Walk(v, u, cluster, parent, depth).value == Flatten(ls)
      && TerminatorAt(u, data, |ls|)
      && forall i :: 0 <= i < |ls| ==> VisitsTo(v, u, cluster, parent, data, sectors, i, depth, ls[i])
  {
    var data, sectors := ChainData(v, cluster).value, ChainSectors(v.boot, v.fat, cluster).value;
    var ls := Scan(v, u, cluster, parent, data, sectors, 0, depth).value;
    assert Walk(v, u, cluster, parent, depth) == Ok(Flatten(ls));
    ScanListed(v, u, cluster, parent, data, sectors, 0, depth, ls);
    var visits, ends := RecordVisits(v, u, cluster, parent, data, sectors, depth), Terminators(u, data);
    ListedStop(visits, ends, 0, ls);
    ListedEach(visits, ends, ls);
  }

  /** A visited record is described by its bytes. */
  lemma VisitDescribes(v: Volume, u: Hw4Utils, base: Record, raw: seq<Byte>, depth: nat)
    requires |raw| >= 12 && base == Base(u, base.parent, base.dirCluster, base.dirSectors, base.entryNum, raw)
    requires base.entryType != Terminator
    requires Visit(v, u, base, raw, depth).Ok?
    ensures Describes(v, u, base.dirCluster, base.parent, base.dirSectors, base.entryNum, raw, depth,
                      Visit(v, u, base, raw, depth).value)
  {
    if !IsSubdir(base.entryType, base.name) && IsOther(base.entryType) {
      FileRecordKeys(v, raw, base);
    }
  }

  /** With sectors_per_fat at most 4 no directory can be read: the FAT offset guard fails for every cluster. */
  lemma SmallFatFails(v: Volume, u: Hw4Utils, cluster: nat, parent: string, depth: nat)
    requires v.boot.sectorsPerFat <= 4
    ensures Walk(v, u, cluster, parent, depth) == Err(FatIndexOutOfRange(cluster))
  {
  }

  /** A directory whose first FAT entry is 0 has no data, so its record 0 is cut short. */
  lemma UnallocatedDirectoryFails(v: Volume, u: Hw4Utils, cluster: nat, parent: string, depth: nat)
    requires 0 < cluster * 4 + 4 < v.boot.sectorsPerFat && Entry(v.fat, cluster) == 0
    ensures Walk(v, u, cluster, parent, depth) == Err(EntryTruncated(cluster, 0))
  {
    assert ChainData(v, cluster) == Ok([]);
    assert |EntryBytes([], 0)| < 12;
    assert ListFrom(v, u, cluster, parent, 0, depth) == Err(EntryTruncated(cluster, 0));
  }

  /** The recursion limit only ever turns a listing into an error: a walk that succeeds gives the
      same listing with any larger limit. */
  lemma {:induction false} WalkDepth(v: Volume, u: Hw4Utils, cluster: nat, parent: string, depth: nat)
    requires Walk(v, u, cluster, parent, depth).Ok?
    ensures Walk(v, u, cluster, parent, depth + 1) == Walk(v, u, cluster, parent, depth)
    decreases depth, 1, 0
  {
    var data, sectors := ChainData(v, cluster).value, ChainSectors(v.boot, v.fat, cluster).value;
    ScanDepth(v, u, cluster, parent, data, sectors, 0, depth);
  }

  lemma {:induction false} ScanDepth(v: Volume, u: Hw4Utils, cluster: nat, parent: string, data: seq<Byte>,
                                     sectors: seq<int>, k: nat, depth: nat)
    requires Scan(v, u, cluster, parent, data, sectors, k, depth).Ok?
    ensures Scan(v, u, cluster, parent, data, sectors, k, depth + 1) == Scan(v, u, cluster, parent, data, sectors, k, depth)
    decreases depth, 0, |data| - Min(32 * k, |data|)
  {
    var raw := EntryBytes(data, k);
    if u.getEntryType(raw[11]) != Terminator {
      var base := Base(u, parent, cluster, sectors, k, raw);
      VisitDepth(v, u, base, raw, depth);
      ScanDepth(v, u, cluster, parent, data, sectors, k + 1, depth);
    }
  }

  lemma {:induction false} VisitDepth(v: Volume, u: Hw4Utils, base: Record, raw: seq<Byte>, depth: nat)
    requires Visit(v, u, base, raw, depth).Ok?
    ensures Visit(v, u, base, raw, depth + 1) == Visit(v, u, base, raw, depth)
    decreases depth, 0, 0
  {
    if IsSubdir(base.entryType, base.name) {
      WalkDepth(v, u, ClusterField(raw), "/" + base.name, depth - 1);
    }
  }
}
