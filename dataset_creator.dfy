/** The per-frame selection steps of `DatasetCreator`: partitioning a
    ground-filtered point cloud into one cluster per labelled box
    (`clusterByBBox`), turning a cluster into a feature record
    (`computeClusterMetadata`) and dropping sparse records (`filterMetadata`).

    The two geometric helpers live in `modules/helperFunctions`, which this
    model does not cover, so they are parameters: `pointsInBox` stands for
    `get_pts_in_bbox` (the points of the cloud inside an oriented box) and
    `clusterParameters` for `extract_cluster_parameters` (a feature vector
    whose index 7 is density). */
module DatasetCreator {
  import opened Wrappers
  import opened Sequences

  datatype Point = Point(x: real, y: real, z: real, intensity: real)

  /** A point cloud, and a cluster (the part of a cloud inside one box). */
  type Cloud = seq<Point>
  type Cluster = seq<Point>

  datatype Vec3 = Vec3(x: real, y: real, z: real)

  /** A Waymo label box: `kind` is the label's `type` (its object class). */
  datatype BBox = BBox(id: string, kind: int, center: Vec3, dimensions: Vec3, heading: real)

  /** Position of the density (points per cubic metre) in a feature vector. */
  const DensityIndex := 7

  /** A feature vector long enough to carry the density at `DensityIndex`. */
  type Parameters = p: seq<real> | |p| > DensityIndex witness [0.0, 0.0, 0.0, 0.0, 0.0, 0.0, 0.0, 0.0]

  /** The `Features` record of one cluster. */
  datatype Features = Features(clusterId: string, frameId: int, cls: int, cnt: nat, parameters: Parameters)

  datatype Error = TypeError(message: string)

  /** Default minimum cluster size of `clusterByBBox`. */
  const DefaultMinPoints: int := 5

  /** Default minimum density of `filterMetadata`. */
  const DefaultMinDensity: real := 20.0

  function Ids(bboxes: seq<BBox>): set<string> {
    set b | b in bboxes :: b.id
  }

  function RecordIds(records: seq<Features>): set<string> {
    set r | r in records :: r.clusterId
  }

  // ---------------------------------------------------------------- clusterByBBox

  /** The entry `clusterByBBox` stores for one box's cluster. */
  function Thresholded(cluster: Cluster, thresh: int): Option<Cluster> {
    if |cluster| >= thresh then Some(cluster) else None
  }

  /** The map `clusterByBBox` has built after visiting `bboxes` in order: each
      box writes its entry under its id, so a later box overwrites an earlier
      one with the same id. */
  function ClusterMap(pcl: Cloud, bboxes: seq<BBox>, pointsInBox: (Cloud, BBox) -> Cluster, thresh: int)
    : map<string, Option<Cluster>>
    decreases |bboxes|
  {
    if bboxes == [] then map[]
    else
      var last := bboxes[|bboxes| - 1];
      ClusterMap(pcl, bboxes[..|bboxes| - 1], pointsInBox, thresh)[last.id := Thresholded(pointsInBox(pcl, last), thresh)]
  }

  /** Box `i` is the last box carrying its id. */
  predicate LastWithId(bboxes: seq<BBox>, i: int) {
    0 <= i < |bboxes| && forall j :: i < j < |bboxes| ==> bboxes[j].id != bboxes[i].id
  }

  /** No two boxes share an id. */
  predicate UniqueIds(bboxes: seq<BBox>) {
    forall i, j :: 0 <= i < j < |bboxes| ==> bboxes[i].id != bboxes[j].id
  }

  /** Every box's id is a key, and nothing else is. */
  lemma {:induction false} ClusterMapKeys(pcl: Cloud, bboxes: seq<BBox>, pointsInBox: (Cloud, BBox) -> Cluster, thresh: int)
    ensures ClusterMap(pcl, bboxes, pointsInBox, thresh).Keys == Ids(bboxes)
    decreases |bboxes|
  {
    if bboxes != [] {
      var init := bboxes[..|bboxes| - 1];
      ClusterMapKeys(pcl, init, pointsInBox, thresh);
      assert bboxes == init + [bboxes[|bboxes| - 1]];
      assert Ids(bboxes) == Ids(init) + {bboxes[|bboxes| - 1].id};
    }
  }

  /** The entry under an id is decided by the last box with that id: its
      cluster when that has at least `thresh` points (inclusive), `None`
      otherwise. */
  lemma {:induction false} ClusterMapEntry(pcl: Cloud, bboxes: seq<BBox>, pointsInBox: (Cloud, BBox) -> Cluster, thresh: int, i: int)
    requires LastWithId(bboxes, i)
    ensures bboxes[i].id in ClusterMap(pcl, bboxes, pointsInBox, thresh)
    ensures ClusterMap(pcl, bboxes, pointsInBox, thresh)[bboxes[i].id].Some?
            <==> |pointsInBox(pcl, bboxes[i])| >= thresh
    ensures ClusterMap(pcl, bboxes, pointsInBox, thresh)[bboxes[i].id].Some?
            ==> ClusterMap(pcl, bboxes, pointsInBox, thresh)[bboxes[i].id].value == pointsInBox(pcl, bboxes[i])
    decreases |bboxes|
  {
    if i < |bboxes| - 1 {
      var init := bboxes[..|bboxes| - 1];
      assert LastWithId(init, i);
      ClusterMapEntry(pcl, init, pointsInBox, thresh, i);
    }
  }

  /** With unique ids every box's entry is its own thresholded cluster. */
  lemma {:induction false} UniqueIdsEntry(pcl: Cloud, bboxes: seq<BBox>, pointsInBox: (Cloud, BBox) -> Cluster, thresh: int, i: int)
    requires UniqueIds(bboxes) && 0 <= i < |bboxes|
    ensures bboxes[i].id in ClusterMap(pcl, bboxes, pointsInBox, thresh)
    ensures ClusterMap(pcl, bboxes, pointsInBox, thresh)[bboxes[i].id] == Thresholded(pointsInBox(pcl, bboxes[i]), thresh)
  {
    ClusterMapEntry(pcl, bboxes, pointsInBox, thresh, i);
  }

  /** `clusterByBBox`: one pass over the boxes, writing each box's thresholded
      cluster (or `None`) under the box's id. */
  method ClusterByBBox(pcl: Cloud, bboxes: seq<BBox>, pointsInBox: (Cloud, BBox) -> Cluster, thresh: int := DefaultMinPoints)
    returns (objPcls: map<string, Option<Cluster>>)
    ensures objPcls == ClusterMap(pcl, bboxes, pointsInBox, thresh)
    ensures objPcls.Keys == Ids(bboxes)
  {
    objPcls := map[];
    for i := 0 to |bboxes|
      invariant objPcls == ClusterMap(pcl, bboxes[..i], pointsInBox, thresh)
    {
      var box := bboxes[i];
      var cluster := pointsInBox(pcl, box);
      if |cluster| >= thresh {
        objPcls := objPcls[box.id := Some(cluster)];
      } else {
        objPcls := objPcls[box.id := None];
      }
      assert bboxes[..i + 1][..i] == bboxes[..i];
    }
    assert bboxes[..|bboxes|] == bboxes;
    ClusterMapKeys(pcl, bboxes, pointsInBox, thresh);
  }

  // ------------------------------------------------------- computeClusterMetadata

  /** `computeClusterMetadata`: a `None` cluster is a caller error (the source
      raises `TypeError`); a present one becomes a record naming the box, the
      frame, the box's class, the cluster's point count and its feature vector. */
  function ComputeClusterMetadata(cluster: Option<Cluster>, bbox: BBox, frameId: int, clusterParameters: Cluster -> Parameters)
    : (r: Result<Features, Error>)
    ensures r.Failure? <==> cluster.None?
    ensures r.Success? ==>
              && r.value.clusterId == bbox.id
              && r.value.frameId == frameId
              && r.value.cls == bbox.kind
              && r.value.cnt == |cluster.value|
              && r.value.parameters == clusterParameters(cluster.value)
  {
    match cluster
    case None =>
      Failure(TypeError("None passed as cluster - possibly a too-small cluster passed from clusterByBBox?"))
    case Some(c) =>
      Success(Features(bbox.id, frameId, bbox.kind, |c|, clusterParameters(c)))
  }

  // ---------------------------------------------------------------- filterMetadata

  /** A record is kept when its density is strictly above `thresh`. */
  function IsDense(thresh: real): Features -> bool {
    (f: Features) => f.parameters[DensityIndex] > thresh
  }

  /** The density filter keeps exactly the records whose density exceeds the
      threshold (strictly: a record at the threshold is dropped), each as many
      times as it occurs. */
  lemma {:induction false} KeptRecords(metadata: seq<Features>, thresh: real)
    ensures forall r :: r in Filter(metadata, IsDense(thresh)) <==> r in metadata && r.parameters[DensityIndex] > thresh
    ensures forall r :: multiset(Filter(metadata, IsDense(thresh)))[r]
                        == if r.parameters[DensityIndex] > thresh then multiset(metadata)[r] else 0
  {
    FilterMultiset(metadata, IsDense(thresh));
    FilterMembers(metadata, IsDense(thresh));
  }

  /** The kept records keep their relative order: the k-th kept record is the
      record at the k-th position, counted from the front, whose density
      exceeds the threshold. */
  lemma {:induction false} KeptRecordsInOrder(metadata: seq<Features>, thresh: real)
    ensures |Filter(metadata, IsDense(thresh))| == |KeptIndices(metadata, IsDense(thresh))|
    ensures forall k :: 0 <= k < |Filter(metadata, IsDense(thresh))| ==>
              Filter(metadata, IsDense(thresh))[k] == metadata[KeptIndices(metadata, IsDense(thresh))[k]]
  {
    FilterByIndices(metadata, IsDense(thresh));
  }

  /** `filterMetadata`: keeps, in order, the records denser than `thresh`, and
      builds a fresh map from each kept record's id to its cluster. Only a kept
      record's id is looked up, so only those ids must be keys of `clusters`. */
  method FilterMetadata(metadata: seq<Features>, clusters: map<string, Cluster>, thresh: real := DefaultMinDensity)
    returns (filteredMetadata: seq<Features>, filteredClusters: map<string, Cluster>)
    requires forall i :: 0 <= i < |metadata| && metadata[i].parameters[DensityIndex] > thresh ==> metadata[i].clusterId in clusters
    ensures filteredMetadata == Filter(metadata, IsDense(thresh))
    ensures filteredClusters.Keys == RecordIds(filteredMetadata)
    ensures forall id :: id in filteredClusters ==> id in clusters && filteredClusters[id] == clusters[id]
  {
    filteredMetadata := [];
    filteredClusters := map[];
    for i := 0 to |metadata|
      invariant filteredMetadata == Filter(metadata[..i], IsDense(thresh))
      invariant filteredClusters.Keys == RecordIds(filteredMetadata)
      invariant forall id :: id in filteredClusters ==> id in clusters && filteredClusters[id] == clusters[id]
    {
      var c := metadata[i];
      FilterSnoc(metadata, i, IsDense(thresh));
      if c.parameters[DensityIndex] > thresh {
        filteredClusters := filteredClusters[c.clusterId := clusters[c.clusterId]];
        assert RecordIds(filteredMetadata + [c]) == RecordIds(filteredMetadata) + {c.clusterId};
        filteredMetadata := filteredMetadata + [c];
      }
    }
    assert metadata[..|metadata|] == metadata;
  }
}
