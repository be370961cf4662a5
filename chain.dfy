/** FAT copy 0 as a table of 4-byte entries, and the cluster chains it links. */
module Chain {
  import opened Results
  import opened Bytes
  import opened Geometry

  /** The largest entry value that links to a further cluster: every value up to it, zero included,
      names the next cluster, and only values above it end a chain. */
  const MaxLinkValue: nat := 0x0FFF_FFF8

  /** The FAT entry of a cluster: the 4 bytes at 4 * cluster, fewer (or none) past the end of the table. */
  function Entry(fat: seq<Byte>, cluster: nat): (r: nat)
    ensures r < 0x1_0000_0000
    ensures 4 * cluster >= |fat| ==> r == 0
  {
    U32At(fat, 4 * cluster)
  }

  /** The entry is `unpack(fat[4 * cluster : 4 * cluster + 4])`. */
  lemma EntryIsUnpack(fat: seq<Byte>, cluster: nat)
    ensures Entry(fat, cluster) == Unpack(Slice(fat, 4 * cluster, 4 * cluster + 4))
  {
    U32AtIsUnpack(fat, 4 * cluster);
  }

  /** A finished chain as the source walks it: each cluster but the last has an entry naming the
      next one, and the last cluster's entry is above the end-of-chain threshold. */
  ghost predicate IsRun(fat: seq<Byte>, cs: seq<nat>)
    decreases |cs|
  {
    && |cs| > 0
    && var e := Entry(fat, cs[0]);
       if |cs| == 1 then e > MaxLinkValue
       else e <= MaxLinkValue && cs[1] == e && IsRun(fat, cs[1..])
  }

  /** Following links from `cluster` eventually reaches an end-of-chain entry. */
  ghost predicate Terminates(fat: seq<Byte>, cluster: nat) {
    exists cs :: IsRun(fat, cs) && cs[0] == cluster
  }

  /** A bound on the links of any finished chain (see RunBounded): a walk that has followed this
      many links without finishing has entered a cycle and never finishes. */
  function MaxLinks(fat: seq<Byte>): nat {
    |fat| / 4 + 2
  }

  /** The clusters met from `cluster` on, following at most `fuel` links. */
  function Follow(fat: seq<Byte>, cluster: nat, fuel: nat): Option<seq<nat>>
    decreases fuel
  {
    var e := Entry(fat, cluster);
    if e > MaxLinkValue then Some([cluster])
    else if fuel == 0 then None
    else match Follow(fat, e, fuel - 1)
      case None => None
      case Some(rest) => Some([cluster] + rest)
  }

  /** The sectors of a list of clusters, cluster by cluster in list order. */
  function Sectors(b: Boot, cs: seq<nat>): seq<int> {
    if cs == [] then [] else ClusterRange(b, cs[0]) + Sectors(b, cs[1..])
  }

  /** The sector list of the chain starting at table entry `number`: the sectors of its first
      cluster, then those of the clusters that follow it.  The guard compares the entry's byte
      offset plus 4 with sectors_per_fat, a sector count; a chain that never ends, on which the
      source loops forever, is reported as EndlessChain (see ChainSectorsIsFollow). */
  function ChainSectors(b: Boot, fat: seq<Byte>, number: int): (r: Result<seq<int>>)
    ensures r.Ok? ==> 0 < number * 4 + 4 < b.sectorsPerFat
  {
    if !(0 < number * 4 + 4 < b.sectorsPerFat) then Err(FatIndexOutOfRange(number))
    else if Entry(fat, number) == 0 then Ok([])
    else Then(ClusterRange(b, number), ChainTail(b, fat, number, number, MaxLinks(fat)))
  }

  /** The sectors of the clusters that follow `cluster` in its chain, with at most `fuel` more
      links to follow; running out of links is the endless chain of entry `number`. */
  function ChainTail(b: Boot, fat: seq<Byte>, number: int, cluster: nat, fuel: nat): Result<seq<int>>
    decreases fuel
  {
    var e := Entry(fat, cluster);
    if e > MaxLinkValue then Ok([])
    else if fuel == 0 then Err(EndlessChain(number))
    else Then(ClusterRange(b, e), ChainTail(b, fat, number, e, fuel - 1))
  }

  lemma {:induction false} FollowSound(fat: seq<Byte>, cluster: nat, fuel: nat)
    requires Follow(fat, cluster, fuel).Some?
    ensures var cs := Follow(fat, cluster, fuel).value;
      IsRun(fat, cs) && cs[0] == cluster && |cs| <= fuel + 1
    decreases fuel
  {
    var e := Entry(fat, cluster);
    if e <= MaxLinkValue {
      FollowSound(fat, e, fuel - 1);
      var rest := Follow(fat, e, fuel - 1).value;
      assert ([cluster] + rest)[1..] == rest;
    }
  }

  lemma {:induction false} FollowComplete(fat: seq<Byte>, cs: seq<nat>, fuel: nat)
    requires IsRun(fat, cs) && |cs| <= fuel + 1
    ensures Follow(fat, cs[0], fuel) == Some(cs)
  {
    var e := Entry(fat, cs[0]);
    if |cs| > 1 {
      var rest := cs[1..];
      assert e <= MaxLinkValue && rest[0] == e && IsRun(fat, rest);
      FollowComplete(fat, rest, fuel - 1);
      assert Follow(fat, cs[0], fuel) == Some([cs[0]] + rest);
      assert cs == [cs[0]] + rest;
    } else {
      assert e > MaxLinkValue && cs == [cs[0]];
    }
  }

  /** Each cluster of a finished chain but the last links to the next one. */
  lemma {:induction false} RunLinks(fat: seq<Byte>, cs: seq<nat>, i: nat)
    requires IsRun(fat, cs) && i < |cs|
    ensures i < |cs| - 1 ==> Entry(fat, cs[i]) <= MaxLinkValue && cs[i + 1] == Entry(fat, cs[i])
    ensures i == |cs| - 1 ==> Entry(fat, cs[i]) > MaxLinkValue
  {
    if i > 0 {
      RunLinks(fat, cs[1..], i - 1);
    }
  }

  /** In a finished chain, positions i < j hold different clusters: walking on from equal clusters
      would reach the end of the chain from position i too early. */
  lemma {:induction false} RunPositionsDiffer(fat: seq<Byte>, cs: seq<nat>, i: nat, j: nat)
    requires IsRun(fat, cs) && i < j < |cs|
    ensures cs[i] != cs[j]
    decreases |cs| - j
  {
    RunLinks(fat, cs, i);
    RunLinks(fat, cs, j);
    if j < |cs| - 1 {
      RunPositionsDiffer(fat, cs, i + 1, j + 1);
    }
  }

  /** A finished chain never visits a cluster twice. */
  lemma RunDistinct(fat: seq<Byte>, cs: seq<nat>)
    requires IsRun(fat, cs)
    ensures forall i, j :: 0 <= i < j < |cs| ==> cs[i] != cs[j]
  {
    forall i, j | 0 <= i < j < |cs| ensures cs[i] != cs[j] {
      RunPositionsDiffer(fat, cs, i, j);
    }
  }

  /** Every value the table yields for the first n entry positions. */
  ghost function EntryValues(fat: seq<Byte>, n: nat): set<nat> {
    if n == 0 then {} else EntryValues(fat, n - 1) + {Entry(fat, n - 1)}
  }

  lemma {:induction false} EntryValuesCard(fat: seq<Byte>, n: nat)
    ensures |EntryValues(fat, n)| <= n
  {
    if n > 0 {
      EntryValuesCard(fat, n - 1);
      AddOneCard(EntryValues(fat, n - 1), Entry(fat, n - 1));
    }
  }

  lemma AddOneCard(a: set<nat>, e: nat)
    ensures |a + {e}| <= |a| + 1
  {
    if e in a {
      assert a + {e} == a;
    }
  }

  lemma {:induction false} EntryValuesHas(fat: seq<Byte>, n: nat, c: nat)
    requires c < n
    ensures Entry(fat, c) in EntryValues(fat, n)
  {
    var e := Entry(fat, c);
    var prev := EntryValues(fat, n - 1);
    assert EntryValues(fat, n) == prev + {Entry(fat, n - 1)};
    if c < n - 1 {
      EntryValuesHas(fat, n - 1, c);
      assert e in prev;
    } else {
      assert e == Entry(fat, n - 1);
    }
  }

  lemma EntryValueListed(fat: seq<Byte>, c: nat)
    ensures Entry(fat, c) in EntryValues(fat, MaxLinks(fat))
  {
    var last := |fat| / 4 + 1;
    if c < MaxLinks(fat) {
      EntryValuesHas(fat, MaxLinks(fat), c);
    } else {
      assert Entry(fat, c) == 0 == Entry(fat, last);
      EntryValuesHas(fat, MaxLinks(fat), last);
    }
  }

  ghost function Elements(s: seq<nat>): set<nat> {
    set x | x in s
  }

  lemma {:induction false} DistinctElements(s: seq<nat>)
    requires forall i, j :: 0 <= i < j < |s| ==> s[i] != s[j]
    ensures |Elements(s)| == |s|
  {
    if s != [] {
      var t := s[1..];
      assert forall i, j :: 0 <= i < j < |t| ==> t[i] == s[i + 1] != s[j + 1] == t[j];
      DistinctElements(t);
      assert Elements(s) == Elements(t) + {s[0]};
      assert forall k :: 0 <= k < |t| ==> t[k] == s[k + 1] != s[0];
      assert s[0] !in Elements(t);
    } else {
      assert Elements(s) == {};
    }
  }

  lemma SubsetCard(a: set<nat>, b: set<nat>)
    requires a <= b
    ensures |a| <= |b|
  {
    assert b == a + (b - a);
  }

  /** A finished chain follows at most MaxLinks links: its clusters after the first are distinct
      entry values, and the table yields at most MaxLinks different ones. */
  lemma RunBounded(fat: seq<Byte>, cs: seq<nat>)
    requires IsRun(fat, cs)
    ensures |cs| <= MaxLinks(fat) + 1
  {
    RunDistinct(fat, cs);
    var t := cs[1..];
    assert forall i, j :: 0 <= i < j < |t| ==> t[i] == cs[i + 1] != cs[j + 1] == t[j];
    DistinctElements(t);
    var visited := Elements(t);
    var pool := EntryValues(fat, MaxLinks(fat));
    forall x | x in visited ensures x in pool {
      var k :| 0 <= k < |t| && t[k] == x;
      RunLinks(fat, cs, k);
      EntryValueListed(fat, cs[k]);
    }
    SubsetCard(visited, pool);
    EntryValuesCard(fat, MaxLinks(fat));
  }

  /** The bounded walk finds a chain exactly when one exists, so EndlessChain stands for precisely
      the chains the source would follow forever. */
  lemma FollowFindsRun(fat: seq<Byte>, cluster: nat)
    ensures Follow(fat, cluster, MaxLinks(fat)).Some? <==> Terminates(fat, cluster)
    ensures Follow(fat, cluster, MaxLinks(fat)).Some? ==> IsRun(fat, Follow(fat, cluster, MaxLinks(fat)).value)
  {
    if Follow(fat, cluster, MaxLinks(fat)).Some? {
      FollowSound(fat, cluster, MaxLinks(fat));
    }
    forall cs | IsRun(fat, cs) && cs[0] == cluster
      ensures Follow(fat, cluster, MaxLinks(fat)) == Some(cs)
    {
      RunBounded(fat, cs);
      FollowComplete(fat, cs, MaxLinks(fat));
    }
  }

  lemma {:induction false} SectorsAppend(b: Boot, cs: seq<nat>, c: nat)
    ensures Sectors(b, cs + [c]) == Sectors(b, cs) + ClusterRange(b, c)
  {
    if cs == [] {
      assert Sectors(b, [c]) == ClusterRange(b, c) + Sectors(b, []);
    } else {
      assert (cs + [c])[1..] == cs[1..] + [c];
      SectorsAppend(b, cs[1..], c);
    }
  }

  lemma {:induction false} SectorsLength(b: Boot, cs: seq<nat>)
    ensures |Sectors(b, cs)| == |cs| * b.sectorsPerCluster
  {
    if cs != [] {
      SectorsLength(b, cs[1..]);
      assert |cs| * b.sectorsPerCluster == b.sectorsPerCluster + (|cs| - 1) * b.sectorsPerCluster;
    }
  }

  /** Every sector of every cluster of the list is listed (the converse of SectorsMember). */
  lemma {:induction false} SectorsCover(b: Boot, cs: seq<nat>, k: nat, x: int)
    requires k < |cs| && InCluster(b, cs[k], x)
    ensures x in Sectors(b, cs)
  {
    var head, tail := ClusterRange(b, cs[0]), Sectors(b, cs[1..]);
    assert Sectors(b, cs) == head + tail;
    if k == 0 {
      ClusterRangeAt(b, cs[0], x - ToSector(b, cs[0]));
      assert x in head;
    } else {
      assert cs[1..][k - 1] == cs[k];
      SectorsCover(b, cs[1..], k - 1, x);
    }
  }

  lemma MulMono(x: int, y: int, s: nat)
    requires x <= y
    ensures x * s <= y * s
  {
  }

  lemma {:induction false} SectorsMember(b: Boot, cs: seq<nat>, x: int)
    requires x in Sectors(b, cs)
    ensures exists k :: 0 <= k < |cs| && InCluster(b, cs[k], x)
  {
    var r := ClusterRange(b, cs[0]);
    if x in r {
      var i :| 0 <= i < |r| && r[i] == x;
      ClusterRangeAt(b, cs[0], i);
      assert InCluster(b, cs[0], x);
    } else {
      SectorsMember(b, cs[1..], x);
      var k :| 0 <= k < |cs| - 1 && InCluster(b, cs[1..][k], x);
      assert InCluster(b, cs[k + 1], x);
    }
  }

  /** No element of `s` occurs twice. */
  ghost predicate NoRepeats(s: seq<int>) {
    forall i, j :: 0 <= i < j < |s| ==> s[i] != s[j]
  }

  lemma ClusterRangeNoRepeats(b: Boot, cluster: int)
    ensures NoRepeats(ClusterRange(b, cluster))
  {
    var r := ClusterRange(b, cluster);
    forall i, j | 0 <= i < j < |r| ensures r[i] != r[j] {
      ClusterRangeAt(b, cluster, i);
      ClusterRangeAt(b, cluster, j);
    }
  }

  lemma AppendNoRepeats(r: seq<int>, s: seq<int>)
    requires NoRepeats(r) && NoRepeats(s)
    requires forall x :: x in r ==> x !in s
    ensures NoRepeats(r + s)
  {
    var all := r + s;
    forall i, j | 0 <= i < j < |all| ensures all[i] != all[j] {
      if i >= |r| {
        assert all[i] == s[i - |r|] && all[j] == s[j - |r|];
      } else if j >= |r| {
        assert all[i] in r && all[j] in s;
      }
    }
  }

  /** Distinct clusters give distinct sectors. */
  lemma {:induction false} SectorsDistinct(b: Boot, cs: seq<nat>)
    requires forall i, j :: 0 <= i < j < |cs| ==> cs[i] != cs[j]
    ensures NoRepeats(Sectors(b, cs))
  {
    if cs != [] {
      var r, s := ClusterRange(b, cs[0]), Sectors(b, cs[1..]);
      assert forall i, j :: 0 <= i < j < |cs| - 1 ==> cs[1..][i] == cs[i + 1] != cs[j + 1] == cs[1..][j];
      SectorsDistinct(b, cs[1..]);
      ClusterRangeNoRepeats(b, cs[0]);
      forall x | x in r ensures x !in s {
        if x in s {
          SectorsMember(b, cs[1..], x);
          var k :| 0 <= k < |cs| - 1 && InCluster(b, cs[1..][k], x);
          var i :| 0 <= i < |r| && r[i] == x;
          ClusterRangeAt(b, cs[0], i);
          ClusterRangesDisjoint(b, cs[0], cs[k + 1], x);
        }
      }
      AppendNoRepeats(r, s);
    }
  }

  /** A finished chain from an allocated entry resolves to its clusters' sectors in chain order,
      sectors_per_cluster of them per cluster, none repeated. */
  lemma ChainSectorsOfRun(b: Boot, fat: seq<Byte>, cs: seq<nat>)
    requires IsRun(fat, cs) && Entry(fat, cs[0]) != 0
    requires 0 < cs[0] * 4 + 4 < b.sectorsPerFat
    ensures ChainSectors(b, fat, cs[0]) == Ok(Sectors(b, cs))
    ensures |Sectors(b, cs)| == |cs| * b.sectorsPerCluster
    ensures NoRepeats(Sectors(b, cs))
  {
    RunBounded(fat, cs);
    FollowComplete(fat, cs, MaxLinks(fat));
    ChainSectorsIsFollow(b, fat, cs[0]);
    SectorsLength(b, cs);
    RunDistinct(fat, cs);
    SectorsDistinct(b, cs);
  }

  /** How a chain lookup ends: the offset guard, the unallocated entry, the endless chain and the
      finished chain are the only outcomes. */
  lemma ChainSectorsOutcomes(b: Boot, fat: seq<Byte>, number: int)
    ensures ChainSectors(b, fat, number) == Err(FatIndexOutOfRange(number)) <==> !(0 < number * 4 + 4 < b.sectorsPerFat)
    ensures 0 < number * 4 + 4 < b.sectorsPerFat && Entry(fat, number) == 0 ==> ChainSectors(b, fat, number) == Ok([])
    ensures ChainSectors(b, fat, number) == Err(EndlessChain(number)) <==>
              0 < number * 4 + 4 < b.sectorsPerFat && Entry(fat, number) != 0 && !Terminates(fat, number)
    ensures ChainSectors(b, fat, number).Ok? && ChainSectors(b, fat, number).value != [] ==>
              exists cs :: IsRun(fat, cs) && cs[0] == number && ChainSectors(b, fat, number).value == Sectors(b, cs)
  {
    if 0 < number * 4 + 4 < b.sectorsPerFat && Entry(fat, number) != 0 {
      FollowFindsRun(fat, number);
      ChainSectorsIsFollow(b, fat, number);
    }
  }

  /** The first cluster's sectors followed by the tail are the sectors of the whole walk. */
  lemma {:induction false} ChainTailIsFollow(b: Boot, fat: seq<Byte>, number: int, cluster: nat, fuel: nat)
    ensures Then(ClusterRange(b, cluster), ChainTail(b, fat, number, cluster, fuel)) ==
              match Follow(fat, cluster, fuel)
              case None => Err(EndlessChain(number))
              case Some(cs) => Ok(Sectors(b, cs))
    decreases fuel
  {
    var e := Entry(fat, cluster);
    if e > MaxLinkValue {
      assert [cluster][1..] == [];
      assert Sectors(b, [cluster]) == ClusterRange(b, cluster) + [];
    } else if fuel > 0 {
      ChainTailIsFollow(b, fat, number, e, fuel - 1);
      var next := Follow(fat, e, fuel - 1);
      if next.Some? {
        assert ([cluster] + next.value)[1..] == next.value;
        assert Sectors(b, [cluster] + next.value) == ClusterRange(b, cluster) + Sectors(b, next.value);
      }
    }
  }

  /** Walking the chain link by link and listing the sectors of the clusters met is the same
      as taking the clusters of the chain first and then their sectors. */
  lemma ChainSectorsIsFollow(b: Boot, fat: seq<Byte>, number: int)
    requires 0 < number * 4 + 4 < b.sectorsPerFat && Entry(fat, number) != 0
    ensures ChainSectors(b, fat, number) ==
              match Follow(fat, number, MaxLinks(fat))
              case None => Err(EndlessChain(number))
              case Some(cs) => Ok(Sectors(b, cs))
  {
    ChainTailIsFollow(b, fat, number, number, MaxLinks(fat));
  }
}
