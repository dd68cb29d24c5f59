/** The citation export writer: a paper's located citation clusters become
    one upload record per resolved (key, cluster) pair, and the records are
    written once, in a versioned container, to a file that is never
    overwritten. The loader gathers per paper what the writer needs and
    skips a paper when one of its inputs is missing. */
module CitationsOutput {
  import opened Basics
  import opened Decimal

  type CitationKey = string
  type S2Id = string
  type ArxivId = string
  type Path = string

  /** The clusters of one citation key: cluster index to the set of boxes of that cluster, in dict order. */
  type KeyLocations = seq<(int, set<BoundingBox>)>

  /** `load_located_citations`: citation key to its clusters, in dict order. */
  type CitationLocations = seq<(CitationKey, KeyLocations)>

  datatype EntityUploadInfo = EntityUploadInfo(
    id: string,
    entityType: string,
    boundingBoxes: seq<BoundingBox>,
    data: map<string, string>)

  /** A reference as the export stores it: authors joined into one string. */
  datatype Reference = Reference(s2Id: S2Id, authors: string, otherFields: seq<string>)

  datatype CitationData = CitationData(
    arxivId: ArxivId,
    s2Id: S2Id,
    citationLocations: CitationLocations,
    keyS2Ids: map<CitationKey, S2Id>,
    s2Data: map<S2Id, Reference>)

  const CITATION_TYPE := "citation"
  const FORMAT_VERSION := "v0"

  // ---------------------------------------------------------------------
  // save: clusters to upload records

  /** `f"{citation_key}-{cluster_index}"`. */
  function CitationId(key: CitationKey, clusterIndex: int): string {
    key + "-" + IntToString(clusterIndex)
  }

  /** For non-negative cluster indices the id determines key and index: the
      digits after the last dash contain no dash. */
  lemma CitationIdInjective(key1: CitationKey, index1: int, key2: CitationKey, index2: int)
    requires index1 >= 0 && index2 >= 0
    requires CitationId(key1, index1) == CitationId(key2, index2)
    ensures key1 == key2 && index1 == index2
  {
    var s := CitationId(key1, index1);
    if |key1| < |key2| {
      DashNotInDigits(key1, index1, |key2|);
      assert false;
    } else if |key2| < |key1| {
      DashNotInDigits(key2, index2, |key1|);
      assert false;
    }
    assert key1 == s[..|key1|] && key2 == s[..|key2|];
    assert IntToString(index1) == s[|key1| + 1..];
    assert IntToString(index2) == s[|key2| + 1..];
    IntToStringInjective(index1, index2);
  }

  lemma DashNotInDigits(key: CitationKey, index: int, p: nat)
    requires index >= 0 && |key| < p < |CitationId(key, index)|
    ensures CitationId(key, index)[p] != '-'
  {
    var digits := NatToString(index);
    assert CitationId(key, index)[p] == digits[p - |key| - 1];
  }

  /** One resolved cluster, with the S2 id its key was matched to. */
  datatype Cluster = Cluster(key: CitationKey, index: int, locations: set<BoundingBox>, paperId: S2Id)

  function KeyClusters(key: CitationKey, paperId: S2Id, locations: KeyLocations): (r: seq<Cluster>)
    ensures |r| == |locations|
    ensures forall c :: 0 <= c < |r| ==> r[c] == Cluster(key, locations[c].0, locations[c].1, paperId)
  {
    seq(|locations|, c requires 0 <= c < |locations| => Cluster(key, locations[c].0, locations[c].1, paperId))
  }

  /** The clusters that get a record, in citation-key order and then cluster
      order; a key without an S2 id contributes none. */
  function Clusters(locs: CitationLocations, keyS2Ids: map<CitationKey, S2Id>): seq<Cluster>
    decreases |locs|
  {
    if locs == [] then []
    else
      var n := |locs| - 1;
      var key := locs[n].0;
      Clusters(locs[..n], keyS2Ids) + (if key in keyS2Ids then KeyClusters(key, keyS2Ids[key], locs[n].1) else [])
  }

  /** The record of one cluster: its id, the citation type, exactly the boxes
      of its set each listed once, and the key with the matched paper id. */
  predicate InfoFor(info: EntityUploadInfo, cluster: Cluster) {
    && info.id == CitationId(cluster.key, cluster.index)
    && info.entityType == CITATION_TYPE
    && multiset(info.boundingBoxes) == multiset(cluster.locations)
    && info.data == map["key" := cluster.key, "paper_id" := cluster.paperId]
  }

  /** One record per cluster, in the clusters' order. */
  predicate InfosFor(infos: seq<EntityUploadInfo>, clusters: seq<Cluster>) {
    |infos| == |clusters| && forall n :: 0 <= n < |infos| ==> InfoFor(infos[n], clusters[n])
  }

  /** `list(location_set)`: every element of the set once, in an order the model leaves open. */
  method ListOfSet(s: set<BoundingBox>) returns (xs: seq<BoundingBox>)
    ensures multiset(xs) == multiset(s)
  {
    xs := [];
    var rest := s;
    while rest != {}
      invariant rest <= s
      invariant multiset(xs) + multiset(rest) == multiset(s)
      decreases |rest|
    {
      var x :| x in rest;
      xs := xs + [x];
      rest := rest - {x};
    }
  }

  /** A duplicate-free listing of a set: same length, same elements. */
  lemma ListingOfSet(xs: seq<BoundingBox>, s: set<BoundingBox>)
    requires multiset(xs) == multiset(s)
    ensures |xs| == |s|
    ensures forall x :: x in xs <==> x in s
  {
    assert |multiset(xs)| == |xs|;
    assert |multiset(s)| == |s|;
    forall x
      ensures x in xs <==> x in s
    {
      assert x in xs <==> x in multiset(xs);
    }
  }

  lemma ClustersStep(locs: CitationLocations, keyS2Ids: map<CitationKey, S2Id>, i: nat)
    requires i < |locs|
    ensures Clusters(locs[..i + 1], keyS2Ids) ==
      Clusters(locs[..i], keyS2Ids) + (if locs[i].0 in keyS2Ids then KeyClusters(locs[i].0, keyS2Ids[locs[i].0], locs[i].1) else [])
  {
    assert locs[..i + 1][..i] == locs[..i];
  }

  lemma KeyClustersStep(key: CitationKey, paperId: S2Id, locations: KeyLocations, c: nat)
    requires c < |locations|
    ensures KeyClusters(key, paperId, locations[..c + 1]) ==
      KeyClusters(key, paperId, locations[..c]) + [Cluster(key, locations[c].0, locations[c].1, paperId)]
  {
  }

  lemma InfosForAppend(infos: seq<EntityUploadInfo>, clusters: seq<Cluster>, info: EntityUploadInfo, cluster: Cluster)
    requires InfosFor(infos, clusters) && InfoFor(info, cluster)
    ensures InfosFor(infos + [info], clusters + [cluster])
  {
  }

  /** One pass of the inner loop of `save`: the record of cluster `c` of a key extends the records so far. */
  lemma InfosForClusterStep(infos: seq<EntityUploadInfo>, done: seq<Cluster>, key: CitationKey, paperId: S2Id, locations: KeyLocations, c: nat, info: EntityUploadInfo)
    requires c < |locations|
    requires InfosFor(infos, done + KeyClusters(key, paperId, locations[..c]))
    requires InfoFor(info, Cluster(key, locations[c].0, locations[c].1, paperId))
    ensures InfosFor(infos + [info], done + KeyClusters(key, paperId, locations[..c + 1]))
  {
    var cluster := Cluster(key, locations[c].0, locations[c].1, paperId);
    KeyClustersStep(key, paperId, locations, c);
    InfosForAppend(infos, done + KeyClusters(key, paperId, locations[..c]), info, cluster);
    assert done + KeyClusters(key, paperId, locations[..c + 1]) == done + KeyClusters(key, paperId, locations[..c]) + [cluster];
  }

  /** The loops of `save`: the records built, and the counter that counts them. */
  method EntityInfos(citationLocations: CitationLocations, keyS2Ids: map<CitationKey, S2Id>)
    returns (entityInfos: seq<EntityUploadInfo>, citationIndex: int)
    ensures InfosFor(entityInfos, Clusters(citationLocations, keyS2Ids))
    ensures citationIndex == |entityInfos|
  {
    entityInfos := [];
    citationIndex := 0;
    for i := 0 to |citationLocations|
      invariant InfosFor(entityInfos, Clusters(citationLocations[..i], keyS2Ids))
      invariant citationIndex == |entityInfos|
    {
      var (citationKey, locations) := citationLocations[i];
      ClustersStep(citationLocations, keyS2Ids, i);
      if citationKey !in keyS2Ids {
        continue;
      }
      var done := Clusters(citationLocations[..i], keyS2Ids);
      var paperId := keyS2Ids[citationKey];
      for c := 0 to |locations|
        invariant InfosFor(entityInfos, done + KeyClusters(citationKey, paperId, locations[..c]))
        invariant citationIndex == |entityInfos|
      {
        var (clusterIndex, locationSet) := locations[c];
        var boxes := ListOfSet(locationSet);
        var entityInfo := EntityUploadInfo(
          CitationId(citationKey, clusterIndex),
          CITATION_TYPE,
          boxes,
          map["key" := citationKey, "paper_id" := paperId]);
        assert InfoFor(entityInfo, Cluster(citationKey, clusterIndex, locationSet, paperId));
        InfosForClusterStep(entityInfos, done, citationKey, paperId, locations, c, entityInfo);
        entityInfos := entityInfos + [entityInfo];
        citationIndex := citationIndex + 1;
      }
      assert locations[..|locations|] == locations;
    }
    assert citationLocations[..|citationLocations|] == citationLocations;
  }

  // ---------------------------------------------------------------------
  // Properties of the clusters

  /** `cluster` is cluster `c` of entry `i`, and that entry's key has an S2 id. */
  predicate ClusterAt(locs: CitationLocations, keyS2Ids: map<CitationKey, S2Id>, i: nat, c: nat, cluster: Cluster)
    requires i < |locs| && c < |locs[i].1|
  {
    locs[i].0 in keyS2Ids && cluster == Cluster(locs[i].0, locs[i].1[c].0, locs[i].1[c].1, keyS2Ids[locs[i].0])
  }

  /** A cluster gets a record exactly when its key has an S2 id; the record
      carries that id. */
  lemma {:induction false} ClustersMembership(locs: CitationLocations, keyS2Ids: map<CitationKey, S2Id>, cluster: Cluster)
    ensures cluster in Clusters(locs, keyS2Ids) <==>
      exists i, c :: 0 <= i < |locs| && 0 <= c < |locs[i].1| && ClusterAt(locs, keyS2Ids, i, c, cluster)
    decreases |locs|
  {
    if locs != [] {
      var n := |locs| - 1;
      var prefix := locs[..n];
      ClustersMembership(prefix, keyS2Ids, cluster);
      var key := locs[n].0;
      var own := if key in keyS2Ids then KeyClusters(key, keyS2Ids[key], locs[n].1) else [];
      assert Clusters(locs, keyS2Ids) == Clusters(prefix, keyS2Ids) + own;
      if cluster in Clusters(prefix, keyS2Ids) {
        var i, c :| 0 <= i < n && 0 <= c < |prefix[i].1| && ClusterAt(prefix, keyS2Ids, i, c, cluster);
        assert prefix[i] == locs[i];
        assert ClusterAt(locs, keyS2Ids, i, c, cluster);
      } else if cluster in own {
        var c :| 0 <= c < |own| && own[c] == cluster;
        assert 0 <= c < |locs[n].1| && ClusterAt(locs, keyS2Ids, n, c, cluster);
      }
      if i, c :| 0 <= i < |locs| && 0 <= c < |locs[i].1| && ClusterAt(locs, keyS2Ids, i, c, cluster) {
        if i < n {
          assert prefix[i] == locs[i];
          assert ClusterAt(prefix, keyS2Ids, i, c, cluster);
          assert cluster in Clusters(prefix, keyS2Ids);
        } else {
          assert i == n && own[c] == cluster;
        }
      }
    }
  }

  /** A citation key with no S2 id contributes no record. */
  lemma UnresolvedKeyExcluded(locs: CitationLocations, keyS2Ids: map<CitationKey, S2Id>, key: CitationKey)
    requires key !in keyS2Ids
    ensures forall n :: 0 <= n < |Clusters(locs, keyS2Ids)| ==> Clusters(locs, keyS2Ids)[n].key != key
  {
    forall n | 0 <= n < |Clusters(locs, keyS2Ids)|
      ensures Clusters(locs, keyS2Ids)[n].key != key
    {
      ClustersMembership(locs, keyS2Ids, Clusters(locs, keyS2Ids)[n]);
    }
  }

  /** Records follow citation-key order: the clusters of a concatenation are
      the clusters of the first part, then those of the second. */
  lemma {:induction false} ClustersAppend(a: CitationLocations, b: CitationLocations, keyS2Ids: map<CitationKey, S2Id>)
    ensures Clusters(a + b, keyS2Ids) == Clusters(a, keyS2Ids) + Clusters(b, keyS2Ids)
    decreases |b|
  {
    if b == [] {
      assert a + b == a;
    } else {
      var n := |b| - 1;
      ClustersAppend(a, b[..n], keyS2Ids);
      assert (a + b)[..|a| + n] == a + b[..n];
      assert (a + b)[|a| + n] == b[n];
    }
  }

  /** The number of clusters of resolved keys, counted from the front. */
  function ResolvedClusterCount(locs: CitationLocations, keyS2Ids: map<CitationKey, S2Id>): nat
    decreases |locs|
  {
    if locs == [] then 0
    else (if locs[0].0 in keyS2Ids then |locs[0].1| else 0) + ResolvedClusterCount(locs[1..], keyS2Ids)
  }

  /** There are as many records as resolved keys have clusters. */
  lemma {:induction false} ClustersCount(locs: CitationLocations, keyS2Ids: map<CitationKey, S2Id>)
    ensures |Clusters(locs, keyS2Ids)| == ResolvedClusterCount(locs, keyS2Ids)
    decreases |locs|
  {
    if locs != [] {
      ClustersCount(locs[1..], keyS2Ids);
      ClustersAppend([locs[0]], locs[1..], keyS2Ids);
      assert [locs[0]] + locs[1..] == locs;
      assert [locs[0]][..0] == [];
    }
  }

  /** Distinct keys with distinct, non-negative cluster indices give
      distinct record ids. */
  lemma ClusterIdsDistinct(locs: CitationLocations, keyS2Ids: map<CitationKey, S2Id>)
    requires DistinctKeys(locs)
    requires forall i :: 0 <= i < |locs| ==> DistinctKeys(locs[i].1)
    requires forall i, c :: 0 <= i < |locs| && 0 <= c < |locs[i].1| ==> locs[i].1[c].0 >= 0
    ensures forall n, m :: 0 <= n < m < |Clusters(locs, keyS2Ids)| ==>
      CitationId(Clusters(locs, keyS2Ids)[n].key, Clusters(locs, keyS2Ids)[n].index) !=
      CitationId(Clusters(locs, keyS2Ids)[m].key, Clusters(locs, keyS2Ids)[m].index)
  {
    var cs := Clusters(locs, keyS2Ids);
    ClusterPairsDistinct(locs, keyS2Ids);
    forall n, m | 0 <= n < m < |cs|
      ensures CitationId(cs[n].key, cs[n].index) != CitationId(cs[m].key, cs[m].index)
    {
      ClustersMembership(locs, keyS2Ids, cs[n]);
      ClustersMembership(locs, keyS2Ids, cs[m]);
      if CitationId(cs[n].key, cs[n].index) == CitationId(cs[m].key, cs[m].index) {
        CitationIdInjective(cs[n].key, cs[n].index, cs[m].key, cs[m].index);
      }
    }
  }

  lemma {:induction false} ClusterPairsDistinct(locs: CitationLocations, keyS2Ids: map<CitationKey, S2Id>)
    requires DistinctKeys(locs)
    requires forall i :: 0 <= i < |locs| ==> DistinctKeys(locs[i].1)
    ensures forall n, m :: 0 <= n < m < |Clusters(locs, keyS2Ids)| ==>
      (Clusters(locs, keyS2Ids)[n].key, Clusters(locs, keyS2Ids)[n].index) !=
      (Clusters(locs, keyS2Ids)[m].key, Clusters(locs, keyS2Ids)[m].index)
    decreases |locs|
  {
    if locs != [] {
      var n := |locs| - 1;
      var prefix := locs[..n];
      assert forall i :: 0 <= i < n ==> prefix[i] == locs[i];
      ClusterPairsDistinct(prefix, keyS2Ids);
      var front := Clusters(prefix, keyS2Ids);
      var key := locs[n].0;
      var own := if key in keyS2Ids then KeyClusters(key, keyS2Ids[key], locs[n].1) else [];
      var cs := Clusters(locs, keyS2Ids);
      assert cs == front + own;
      forall p, q | 0 <= p < q < |cs|
        ensures (cs[p].key, cs[p].index) != (cs[q].key, cs[q].index)
      {
        if q < |front| {
          assert cs[p] == front[p] && cs[q] == front[q];
        } else if p < |front| {
          ClustersMembership(prefix, keyS2Ids, front[p]);
          assert cs[q] == own[q - |front|];
          assert cs[q].key == key;
        } else {
          assert cs[p] == own[p - |front|] && cs[q] == own[q - |front|];
        }
      }
    }
  }

  /** What `save` exports for a paper has one record per resolved cluster,
      with pairwise distinct ids when keys and cluster indices are distinct. */
  lemma SavedIdsDistinct(infos: seq<EntityUploadInfo>, locs: CitationLocations, keyS2Ids: map<CitationKey, S2Id>)
    requires InfosFor(infos, Clusters(locs, keyS2Ids))
    requires DistinctKeys(locs)
    requires forall i :: 0 <= i < |locs| ==> DistinctKeys(locs[i].1)
    requires forall i, c :: 0 <= i < |locs| && 0 <= c < |locs[i].1| ==> locs[i].1[c].0 >= 0
    ensures |infos| == ResolvedClusterCount(locs, keyS2Ids)
    ensures forall n, m :: 0 <= n < m < |infos| ==> infos[n].id != infos[m].id
  {
    ClustersCount(locs, keyS2Ids);
    ClusterIdsDistinct(locs, keyS2Ids);
  }

  // ---------------------------------------------------------------------
  // write_to_file: a versioned container, written once

  datatype VersionedContainer = VersionedContainer(version: string, data: seq<EntityUploadInfo>)

  /** What a file holds: an export container, or anything else. */
  datatype FileContents = Export(container: VersionedContainer) | OtherContents(text: string)

  /** The files after a write that refuses to overwrite: an existing file
      keeps its contents, an absent one is created with the container. */
  function WriteIfAbsent(files: map<Path, FileContents>, path: Path, container: VersionedContainer): (r: map<Path, FileContents>)
    ensures path in r && r.Keys == files.Keys + {path}
    ensures forall p :: p in files && p != path ==> r[p] == files[p]
  {
    if path in files then files else files[path := Export(container)]
  }

  /** Running the writer again, with any records, changes nothing. */
  lemma SecondWriteIsNoOp(files: map<Path, FileContents>, path: Path, first: VersionedContainer, second: VersionedContainer)
    ensures WriteIfAbsent(WriteIfAbsent(files, path, first), path, second) == WriteIfAbsent(files, path, first)
  {
  }

  /** The file written holds exactly the first container when it was absent,
      and its old contents otherwise. */
  lemma WriteIfAbsentContents(files: map<Path, FileContents>, path: Path, container: VersionedContainer)
    ensures WriteIfAbsent(files, path, container)[path] == if path in files then files[path] else Export(container)
  {
  }

  /** The paths of the machine and what each holds. */
  class FileSystem {
    var files: map<Path, FileContents>

    constructor (files: map<Path, FileContents>)
      ensures this.files == files
    {
      this.files := files;
    }

    /** `os.path.exists`. */
    function Exists(path: Path): bool
      reads this
    {
      path in files
    }
  }

  /** The command, with its configured output file name. */
  class WriteCitationsOutput {
    const citationsOutputFile: Path

    constructor (citationsOutputFile: Path)
      ensures this.citationsOutputFile == citationsOutputFile
    {
      this.citationsOutputFile := citationsOutputFile;
    }

    /** `write_to_file`: wraps the records, then creates the output file only
        if it does not exist yet. */
    method WriteToFile(fs: FileSystem, entityInfos: seq<EntityUploadInfo>, formatVersion: string) returns (written: bool)
      modifies fs
      ensures written <==> citationsOutputFile !in old(fs.files)
      ensures fs.files == WriteIfAbsent(old(fs.files), citationsOutputFile, VersionedContainer(formatVersion, entityInfos))
    {
      var toWrite := VersionedContainer(formatVersion, entityInfos);
      if fs.Exists(citationsOutputFile) {
        written := false;
      } else {
        fs.files := fs.files[citationsOutputFile := Export(toWrite)];
        written := true;
      }
    }

    /** `save`: the records of the paper's resolved clusters, written in a
        "v0" container unless the output file exists. */
    method Save(fs: FileSystem, item: CitationData) returns (written: bool)
      modifies fs
      ensures written <==> citationsOutputFile !in old(fs.files)
      ensures exists infos ::
        && InfosFor(infos, Clusters(item.citationLocations, item.keyS2Ids))
        && fs.files == WriteIfAbsent(old(fs.files), citationsOutputFile, VersionedContainer(FORMAT_VERSION, infos))
    {
      var entityInfos, _ := EntityInfos(item.citationLocations, item.keyS2Ids);
      written := WriteToFile(fs, entityInfos, FORMAT_VERSION);
    }
  }

  // ---------------------------------------------------------------------
  // load: the tables of one paper and the skip rules

  /** A row of `resolutions.csv`; a bibitem matched to nothing has no key. */
  datatype BibitemMatch = BibitemMatch(key: Option<CitationKey>, s2Id: S2Id)

  /** A row of `references.csv`, with the author list already parsed into names. */
  datatype ReferenceRow = ReferenceRow(s2Id: S2Id, authorNames: seq<string>, otherFields: seq<string>)

  /** Whatever of a paper's inputs exists; None is a missing file. */
  datatype PaperFiles = PaperFiles(
    locatedCitations: Option<CitationLocations>,
    resolutions: Option<seq<BibitemMatch>>,
    s2Id: Option<string>,
    references: Option<seq<ReferenceRow>>)

  /** The key to S2 id table: rows without a key are skipped, later rows override earlier ones. */
  function ResolutionTable(rows: seq<BibitemMatch>): map<CitationKey, S2Id>
    decreases |rows|
  {
    if rows == [] then map[]
    else
      var n := |rows| - 1;
      var table := ResolutionTable(rows[..n]);
      if rows[n].key.Some? then table[rows[n].key.value := rows[n].s2Id] else table
  }

  /** The last row for key `k`, or -1. */
  function LastRowFor(rows: seq<BibitemMatch>, k: CitationKey): (r: int)
    ensures -1 <= r < |rows|
    ensures r >= 0 ==> rows[r].key == Some(k)
    ensures forall j :: r < j < |rows| ==> rows[j].key != Some(k)
  {
    if rows == [] then -1
    else if rows[|rows| - 1].key == Some(k) then |rows| - 1
    else LastRowFor(rows[..|rows| - 1], k)
  }

  /** A key is in the table exactly when some row names it, and maps to the S2 id of the last such row. */
  lemma {:induction false} ResolutionTableLastWins(rows: seq<BibitemMatch>, k: CitationKey)
    ensures k in ResolutionTable(rows) <==> LastRowFor(rows, k) >= 0
    ensures k in ResolutionTable(rows) ==> ResolutionTable(rows)[k] == rows[LastRowFor(rows, k)].s2Id
    decreases |rows|
  {
    if rows != [] {
      var n := |rows| - 1;
      ResolutionTableLastWins(rows[..n], k);
      if rows[n].key != Some(k) && LastRowFor(rows[..n], k) >= 0 {
        assert rows[..n][LastRowFor(rows[..n], k)] == rows[LastRowFor(rows[..n], k)];
      }
    }
  }

  /** Rows without a key leave no trace in the table. */
  lemma {:induction false} ResolutionTableKeys(rows: seq<BibitemMatch>)
    ensures forall k :: k in ResolutionTable(rows) <==> exists j :: 0 <= j < |rows| && rows[j].key == Some(k)
  {
    forall k
      ensures k in ResolutionTable(rows) <==> exists j :: 0 <= j < |rows| && rows[j].key == Some(k)
    {
      ResolutionTableLastWins(rows, k);
      if j :| 0 <= j < |rows| && rows[j].key == Some(k) {
        assert LastRowFor(rows, k) >= j;
      }
    }
  }

  /** `",".join(names)`. */
  function Join(sep: string, xs: seq<string>): string
    decreases |xs|
  {
    if xs == [] then ""
    else if |xs| == 1 then xs[0]
    else xs[0] + sep + Join(sep, xs[1..])
  }

  /** The index of the first `c` in `s`, or |s|. */
  function IndexOf(s: string, c: char): (r: nat)
    ensures r <= |s|
    ensures r < |s| ==> s[r] == c
    ensures forall j :: 0 <= j < r ==> s[j] != c
  {
    if s == [] then 0
    else if s[0] == c then 0
    else 1 + IndexOf(s[1..], c)
  }

  /** `s.split(c)` with one separator character: the pieces between the
      separators, an empty text giving one empty piece. */
  function Split(s: string, c: char): seq<string>
    decreases |s|
  {
    var i := IndexOf(s, c);
    if i == |s| then [s] else [s[..i]] + Split(s[i + 1..], c)
  }

  /** The comma-joined author names split back into the names, when no name
      holds a comma: joining loses nothing. */
  lemma {:induction false} SplitJoin(names: seq<string>)
    requires names != []
    requires forall i :: 0 <= i < |names| ==> ',' !in names[i]
    ensures Split(Join(",", names), ',') == names
    decreases |names|
  {
    var first := names[0];
    assert forall j :: 0 <= j < |first| ==> first[j] != ',' by {
      assert forall j :: 0 <= j < |first| ==> first[j] in first;
    }
    if |names| == 1 {
      assert IndexOf(first, ',') == |first|;
    } else {
      var rest := Join(",", names[1..]);
      var s := first + "," + rest;
      assert IndexOf(s, ',') == |first| by {
        IndexOfAfter(first, rest);
      }
      assert s[..|first|] == first && s[|first| + 1..] == rest;
      SplitJoin(names[1..]);
      assert [first] + names[1..] == names;
    }
  }

  lemma {:induction false} IndexOfAfter(first: string, rest: string)
    requires forall j :: 0 <= j < |first| ==> first[j] != ','
    ensures IndexOf(first + "," + rest, ',') == |first|
    decreases |first|
  {
    if first != [] {
      assert (first + "," + rest)[1..] == first[1..] + "," + rest;
      IndexOfAfter(first[1..], rest);
    }
  }

  /** One metadata row as the export keeps it. */
  function ToReference(row: ReferenceRow): Reference {
    Reference(row.s2Id, Join(",", row.authorNames), row.otherFields)
  }

  /** The S2 id to reference table; later rows override earlier ones. */
  function ReferenceTable(rows: seq<ReferenceRow>): map<S2Id, Reference>
    decreases |rows|
  {
    if rows == [] then map[]
    else
      var n := |rows| - 1;
      ReferenceTable(rows[..n])[rows[n].s2Id := ToReference(rows[n])]
  }

  function LastReferenceFor(rows: seq<ReferenceRow>, s: S2Id): (r: int)
    ensures -1 <= r < |rows|
    ensures r >= 0 ==> rows[r].s2Id == s
    ensures forall j :: r < j < |rows| ==> rows[j].s2Id != s
  {
    if rows == [] then -1
    else if rows[|rows| - 1].s2Id == s then |rows| - 1
    else LastReferenceFor(rows[..|rows| - 1], s)
  }

  /** Every row's S2 id is in the table, mapped to the last row with that id,
      whose author names are joined with commas. */
  lemma {:induction false} ReferenceTableLastWins(rows: seq<ReferenceRow>, s: S2Id)
    ensures s in ReferenceTable(rows) <==> LastReferenceFor(rows, s) >= 0
    ensures s in ReferenceTable(rows) ==>
      && ReferenceTable(rows)[s] == ToReference(rows[LastReferenceFor(rows, s)])
      && ReferenceTable(rows)[s].authors == Join(",", rows[LastReferenceFor(rows, s)].authorNames)
    decreases |rows|
  {
    if rows != [] {
      var n := |rows| - 1;
      ReferenceTableLastWins(rows[..n], s);
      if rows[n].s2Id != s && LastReferenceFor(rows[..n], s) >= 0 {
        assert rows[..n][LastReferenceFor(rows[..n], s)] == rows[LastReferenceFor(rows[..n], s)];
      }
    }
  }

  /** The loop filling `key_s2_ids`. */
  method BuildResolutionTable(rows: seq<BibitemMatch>) returns (keyS2Ids: map<CitationKey, S2Id>)
    ensures keyS2Ids == ResolutionTable(rows)
  {
    keyS2Ids := map[];
    for j := 0 to |rows|
      invariant keyS2Ids == ResolutionTable(rows[..j])
    {
      assert rows[..j + 1][..j] == rows[..j];
      var resolution := rows[j];
      if resolution.key.Some? {
        keyS2Ids := keyS2Ids[resolution.key.value := resolution.s2Id];
      }
    }
    assert rows[..|rows|] == rows;
  }

  /** The loop filling `s2_data`. */
  method BuildReferenceTable(rows: seq<ReferenceRow>) returns (s2Data: map<S2Id, Reference>)
    ensures s2Data == ReferenceTable(rows)
  {
    s2Data := map[];
    for j := 0 to |rows|
      invariant s2Data == ReferenceTable(rows[..j])
    {
      assert rows[..j + 1][..j] == rows[..j];
      var metadata := ToReference(rows[j]);
      s2Data := s2Data[metadata.s2Id := metadata];
    }
    assert rows[..|rows|] == rows;
  }

  /** All four inputs of a paper are there. */
  predicate Complete(f: PaperFiles) {
    f.locatedCitations.Some? && f.resolutions.Some? && f.s2Id.Some? && f.references.Some?
  }

  function PaperData(arxivId: ArxivId, f: PaperFiles): CitationData
    requires Complete(f)
  {
    CitationData(arxivId, f.s2Id.value, f.locatedCitations.value,
      ResolutionTable(f.resolutions.value), ReferenceTable(f.references.value))
  }

  /** What `load` yields, in paper order. */
  function LoadAll(arxivIds: seq<ArxivId>, filesOf: ArxivId -> PaperFiles): seq<CitationData>
    decreases |arxivIds|
  {
    if arxivIds == [] then []
    else
      var n := |arxivIds| - 1;
      var f := filesOf(arxivIds[n]);
      LoadAll(arxivIds[..n], filesOf) + (if Complete(f) then [PaperData(arxivIds[n], f)] else [])
  }

  /** `load` yields a paper's data exactly when all its inputs exist: a
      missing locations, resolutions, S2 id or references file skips it. */
  lemma {:induction false} LoadAllYields(arxivIds: seq<ArxivId>, filesOf: ArxivId -> PaperFiles, d: CitationData)
    ensures d in LoadAll(arxivIds, filesOf) <==>
      exists i :: 0 <= i < |arxivIds| && Complete(filesOf(arxivIds[i])) && d == PaperData(arxivIds[i], filesOf(arxivIds[i]))
    decreases |arxivIds|
  {
    if arxivIds != [] {
      var n := |arxivIds| - 1;
      var prefix := arxivIds[..n];
      LoadAllYields(prefix, filesOf, d);
      if i :| 0 <= i < |arxivIds| && Complete(filesOf(arxivIds[i])) && d == PaperData(arxivIds[i], filesOf(arxivIds[i])) {
        if i < n {
          assert prefix[i] == arxivIds[i];
        }
      }
      if d in LoadAll(prefix, filesOf) {
        var i :| 0 <= i < n && Complete(filesOf(prefix[i])) && d == PaperData(prefix[i], filesOf(prefix[i]));
        assert prefix[i] == arxivIds[i];
      }
    }
  }

  /** The positions of the papers whose four inputs all exist, in order. */
  function CompletePositions(arxivIds: seq<ArxivId>, filesOf: ArxivId -> PaperFiles): seq<nat>
    decreases |arxivIds|
  {
    if arxivIds == [] then []
    else
      var n := |arxivIds| - 1;
      CompletePositions(arxivIds[..n], filesOf) + (if Complete(filesOf(arxivIds[n])) then [n] else [])
  }

  /** Those positions are increasing, each one complete, and every complete position is among them. */
  lemma {:induction false} CompletePositionsSpec(arxivIds: seq<ArxivId>, filesOf: ArxivId -> PaperFiles)
    ensures forall j :: 0 <= j < |CompletePositions(arxivIds, filesOf)| ==>
      CompletePositions(arxivIds, filesOf)[j] < |arxivIds| && Complete(filesOf(arxivIds[CompletePositions(arxivIds, filesOf)[j]]))
    ensures forall j, j' :: 0 <= j < j' < |CompletePositions(arxivIds, filesOf)| ==>
      CompletePositions(arxivIds, filesOf)[j] < CompletePositions(arxivIds, filesOf)[j']
    ensures forall i :: 0 <= i < |arxivIds| && Complete(filesOf(arxivIds[i])) ==> i in CompletePositions(arxivIds, filesOf)
    decreases |arxivIds|
  {
    if arxivIds != [] {
      var n := |arxivIds| - 1;
      var prefix := arxivIds[..n];
      CompletePositionsSpec(prefix, filesOf);
      var ps := CompletePositions(prefix, filesOf);
      var tail := if Complete(filesOf(arxivIds[n])) then [n] else [];
      var all := ps + tail;
      assert CompletePositions(arxivIds, filesOf) == all;
      forall j | 0 <= j < |all|
        ensures all[j] < |arxivIds| && Complete(filesOf(arxivIds[all[j]]))
      {
        if j < |ps| {
          assert all[j] == ps[j] && prefix[ps[j]] == arxivIds[ps[j]];
        }
      }
      forall j, j' | 0 <= j < j' < |all|
        ensures all[j] < all[j']
      {
        if j' < |ps| {
          assert all[j] == ps[j] && all[j'] == ps[j'];
        } else {
          assert all[j] == ps[j] < n;
        }
      }
      forall i | 0 <= i < |arxivIds| && Complete(filesOf(arxivIds[i]))
        ensures i in all
      {
        if i < n {
          assert prefix[i] == arxivIds[i];
          assert i in ps;
        } else {
          assert all[|ps|] == n;
        }
      }
    }
  }

  /** `load` yields one item per complete paper and nothing else: item j is
      the data of the j-th complete paper, in the order of the ids. */
  lemma {:induction false} LoadAllExactly(arxivIds: seq<ArxivId>, filesOf: ArxivId -> PaperFiles)
    ensures |LoadAll(arxivIds, filesOf)| == |CompletePositions(arxivIds, filesOf)|
    ensures forall j :: 0 <= j < |LoadAll(arxivIds, filesOf)| ==>
      CompletePositions(arxivIds, filesOf)[j] < |arxivIds| &&
      Complete(filesOf(arxivIds[CompletePositions(arxivIds, filesOf)[j]])) &&
      LoadAll(arxivIds, filesOf)[j] == PaperData(arxivIds[CompletePositions(arxivIds, filesOf)[j]], filesOf(arxivIds[CompletePositions(arxivIds, filesOf)[j]]))
    decreases |arxivIds|
  {
    CompletePositionsSpec(arxivIds, filesOf);
    if arxivIds != [] {
      var n := |arxivIds| - 1;
      var prefix := arxivIds[..n];
      LoadAllExactly(prefix, filesOf);
      CompletePositionsSpec(prefix, filesOf);
      var ps := CompletePositions(prefix, filesOf);
      assert forall j :: 0 <= j < |ps| ==> ps[j] < n && prefix[ps[j]] == arxivIds[ps[j]];
    }
  }

  /** Papers with an input missing are passed over without a trace. */
  lemma {:induction false} LoadAllSkips(arxivIds: seq<ArxivId>, filesOf: ArxivId -> PaperFiles)
    ensures |LoadAll(arxivIds, filesOf)| <= |arxivIds|
    ensures (forall i :: 0 <= i < |arxivIds| ==> !Complete(filesOf(arxivIds[i]))) ==> LoadAll(arxivIds, filesOf) == []
    decreases |arxivIds|
  {
    if arxivIds != [] {
      var n := |arxivIds| - 1;
      LoadAllSkips(arxivIds[..n], filesOf);
      assert forall i :: 0 <= i < n ==> arxivIds[..n][i] == arxivIds[i];
    }
  }

  /** `load`: for each paper, the skip checks in the source's order, then the two tables. */
  method Load(arxivIds: seq<ArxivId>, filesOf: ArxivId -> PaperFiles) returns (items: seq<CitationData>)
    ensures items == LoadAll(arxivIds, filesOf)
  {
    items := [];
    for i := 0 to |arxivIds|
      invariant items == LoadAll(arxivIds[..i], filesOf)
    {
      assert arxivIds[..i + 1][..i] == arxivIds[..i];
      var arxivId := arxivIds[i];
      var files := filesOf(arxivId);
      if files.locatedCitations.None? {
        continue;
      }
      if files.resolutions.None? {
        continue;
      }
      var keyS2Ids := BuildResolutionTable(files.resolutions.value);
      if files.s2Id.None? {
        continue;
      }
      var s2Id := files.s2Id.value;
      if files.references.None? {
        continue;
      }
      var s2Data := BuildReferenceTable(files.references.value);
      items := items + [CitationData(arxivId, s2Id, files.locatedCitations.value, keyS2Ids, s2Data)];
    }
    assert arxivIds[..|arxivIds|] == arxivIds;
  }
}
