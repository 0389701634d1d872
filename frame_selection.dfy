/** The selection part of `parseFrame`: cluster the boxes, compute metadata
    only for boxes whose cluster is present, then drop the sparse records.
    The ground-filtered cloud is an input here: ground removal, frame decoding,
    visualisation and saving are outside this model. */
module FrameSelection {
  import opened Wrappers
  import opened Sequences
  import opened DatasetCreator

  /** A box whose id maps to a present (not `None`) cluster. */
  function HasCluster(clusters: map<string, Option<Cluster>>): BBox -> bool {
    (b: BBox) => b.id in clusters && clusters[b.id].Some?
  }

  /** The present clusters filed under the given ids, unwrapped. */
  function PresentClusters(clusters: map<string, Option<Cluster>>, ids: set<string>): map<string, Cluster> {
    map id | id in ids && id in clusters && clusters[id].Some? :: clusters[id].value
  }

  /** Adding one id to the ids adds its cluster when present, and nothing otherwise. */
  lemma PresentClustersAdd(clusters: map<string, Option<Cluster>>, ids: set<string>, id: string)
    requires id in clusters
    ensures PresentClusters(clusters, ids + {id})
            == if clusters[id].Some? then PresentClusters(clusters, ids)[id := clusters[id].value]
               else PresentClusters(clusters, ids)
  {
    if clusters[id].None? {
      assert PresentClusters(clusters, ids + {id}).Keys == PresentClusters(clusters, ids).Keys;
    }
  }

  /** Appending a box adds its id. */
  lemma IdsSnoc(bboxes: seq<BBox>, b: BBox)
    ensures Ids(bboxes + [b]) == Ids(bboxes) + {b.id}
  {
    assert forall x :: x in bboxes + [b] <==> x in bboxes || x == b;
  }

  /** Every present entry of the cluster map holds at least `thresh` points. */
  lemma {:induction false} PresentClustersAreLarge(pcl: Cloud, bboxes: seq<BBox>, pointsInBox: (Cloud, BBox) -> Cluster, thresh: int)
    ensures forall id :: id in ClusterMap(pcl, bboxes, pointsInBox, thresh) && ClusterMap(pcl, bboxes, pointsInBox, thresh)[id].Some?
                         ==> |ClusterMap(pcl, bboxes, pointsInBox, thresh)[id].value| >= thresh
    decreases |bboxes|
  {
    if bboxes != [] {
      PresentClustersAreLarge(pcl, bboxes[..|bboxes| - 1], pointsInBox, thresh);
    }
  }

  /** The loop of the visualising `parseFrame`: the boxes whose cluster is
      present, in box order, and the map from their ids to those clusters.
      Every box id is looked up, so every box id must be a key. */
  method SelectValid(clusters: map<string, Option<Cluster>>, bboxes: seq<BBox>)
    returns (validClusters: map<string, Cluster>, validBBoxes: seq<BBox>)
    requires forall b :: b in bboxes ==> b.id in clusters
    ensures validBBoxes == Filter(bboxes, HasCluster(clusters))
    ensures validClusters == PresentClusters(clusters, Ids(bboxes))
    ensures validClusters.Keys == Ids(validBBoxes)
  {
    validClusters := map[];
    validBBoxes := [];
    for i := 0 to |bboxes|
      invariant validBBoxes == Filter(bboxes[..i], HasCluster(clusters))
      invariant validClusters == PresentClusters(clusters, Ids(bboxes[..i]))
      invariant validClusters.Keys == Ids(validBBoxes)
    {
      var bbox := bboxes[i];
      IdsSnoc(bboxes[..i], bbox);
      assert bboxes[..i + 1] == bboxes[..i] + [bbox];
      PresentClustersAdd(clusters, Ids(bboxes[..i]), bbox.id);
      FilterSnoc(bboxes, i, HasCluster(clusters));
      if clusters[bbox.id].Some? {
        validClusters := validClusters[bbox.id := clusters[bbox.id].value];
        IdsSnoc(validBBoxes, bbox);
        validBBoxes := validBBoxes + [bbox];
      }
    }
    assert bboxes[..|bboxes|] == bboxes;
  }

  /** The metadata comprehension of the visualising `parseFrame`: one record
      per valid box, in order, each naming its box, the frame, the box's class
      and the size and features of the cluster filed under the box's id. */
  function MetadataFor(validClusters: map<string, Cluster>, validBBoxes: seq<BBox>, frameId: int, clusterParameters: Cluster -> Parameters)
    : (metadata: seq<Features>)
    requires forall b :: b in validBBoxes ==> b.id in validClusters
    ensures |metadata| == |validBBoxes|
    ensures forall k :: 0 <= k < |validBBoxes| ==>
              && metadata[k].clusterId == validBBoxes[k].id
              && metadata[k].frameId == frameId
              && metadata[k].cls == validBBoxes[k].kind
              && metadata[k].cnt == |validClusters[validBBoxes[k].id]|
              && metadata[k].parameters == clusterParameters(validClusters[validBBoxes[k].id])
  {
    seq(|validBBoxes|, k requires 0 <= k < |validBBoxes| =>
      ComputeClusterMetadata(Some(validClusters[validBBoxes[k].id]), validBBoxes[k], frameId, clusterParameters).value)
  }

  /** The ids of the records are exactly the keys of the valid-cluster map
      (the two lists can differ in length only when box ids repeat). */
  lemma MetadataIdsMatchValidClusters(validClusters: map<string, Cluster>, validBBoxes: seq<BBox>, frameId: int,
                                      clusterParameters: Cluster -> Parameters)
    requires validClusters.Keys == Ids(validBBoxes)
    ensures RecordIds(MetadataFor(validClusters, validBBoxes, frameId, clusterParameters)) == validClusters.Keys
  {
    var metadata := MetadataFor(validClusters, validBBoxes, frameId, clusterParameters);
    forall id | id in validClusters.Keys ensures id in RecordIds(metadata) {
      var k :| 0 <= k < |validBBoxes| && validBBoxes[k].id == id;
      assert metadata[k] in metadata;
    }
  }

  /** The metadata comprehension of the plain `parseFrame`: records for the
      boxes whose entry is not `None`, in box order, with a raised error
      propagating out. The guard means `computeClusterMetadata` is never
      handed `None`, so the comprehension never fails. */
  function FrameMetadata(clusters: map<string, Option<Cluster>>, bboxes: seq<BBox>, frameId: int, clusterParameters: Cluster -> Parameters)
    : (r: Result<seq<Features>, Error>)
    requires forall b :: b in bboxes ==> b.id in clusters
    ensures r.Success?
    ensures |r.value| <= |bboxes|
    decreases |bboxes|
  {
    if bboxes == [] then Success([])
    else
      var init, b := bboxes[..|bboxes| - 1], bboxes[|bboxes| - 1];
      assert forall x :: x in init ==> x in bboxes;
      var earlier := FrameMetadata(clusters, init, frameId, clusterParameters);
      if clusters[b.id].None? then earlier
      else
        match earlier
        case Failure(e) => Failure(e)
        case Success(records) =>
          match ComputeClusterMetadata(clusters[b.id], b, frameId, clusterParameters)
          case Failure(e) => Failure(e)
          case Success(f) => Success(records + [f])
  }

  /** Appending a valid box appends its record. */
  lemma MetadataForSnoc(validClusters: map<string, Cluster>, validBBoxes: seq<BBox>, b: BBox, frameId: int,
                        clusterParameters: Cluster -> Parameters)
    requires forall x :: x in validBBoxes ==> x.id in validClusters
    requires b.id in validClusters
    ensures forall x :: x in validBBoxes + [b] ==> x.id in validClusters
    ensures MetadataFor(validClusters, validBBoxes + [b], frameId, clusterParameters)
            == MetadataFor(validClusters, validBBoxes, frameId, clusterParameters)
               + [ComputeClusterMetadata(Some(validClusters[b.id]), b, frameId, clusterParameters).value]
  {
    assert forall x :: x in validBBoxes + [b] <==> x in validBBoxes || x == b;
  }

  /** The plain and the visualising `parseFrame` compute the same metadata:
      the guarded comprehension over all boxes equals the comprehension over
      the valid boxes with any map that files each valid box's cluster under
      its id. */
  lemma {:induction false} FrameMetadataAgrees(clusters: map<string, Option<Cluster>>, bboxes: seq<BBox>, frameId: int,
                                               clusterParameters: Cluster -> Parameters, validClusters: map<string, Cluster>)
    requires forall b :: b in bboxes ==> b.id in clusters
    requires forall b :: b in bboxes && clusters[b.id].Some? ==> b.id in validClusters && clusters[b.id] == Some(validClusters[b.id])
    ensures forall b :: b in Filter(bboxes, HasCluster(clusters)) ==> b.id in validClusters
    ensures FrameMetadata(clusters, bboxes, frameId, clusterParameters)
            == Success(MetadataFor(validClusters, Filter(bboxes, HasCluster(clusters)), frameId, clusterParameters))
    decreases |bboxes|
  {
    FilterMembers(bboxes, HasCluster(clusters));
    if bboxes != [] {
      var init, b := bboxes[..|bboxes| - 1], bboxes[|bboxes| - 1];
      assert forall x :: x in init ==> x in bboxes;
      FrameMetadataAgrees(clusters, init, frameId, clusterParameters, validClusters);
      if clusters[b.id].Some? {
        MetadataForSnoc(validClusters, Filter(init, HasCluster(clusters)), b, frameId, clusterParameters);
      }
    }
  }

  /** What the records computed from the present clusters of a cluster map
      say: each names a present cluster under its id, reports that cluster's
      size (at least the map's minimum) and features and this frame, and
      names a box of the frame with its id and class. */
  lemma PresentMetadataFacts(clusters: map<string, Option<Cluster>>, bboxes: seq<BBox>, frameId: int,
                             clusterParameters: Cluster -> Parameters, minPoints: int)
    requires forall b :: b in bboxes ==> b.id in clusters
    requires forall id :: id in clusters && clusters[id].Some? ==> |clusters[id].value| >= minPoints
    ensures forall b :: b in Filter(bboxes, HasCluster(clusters)) ==> b.id in PresentClusters(clusters, Ids(bboxes))
    ensures forall r :: r in MetadataFor(PresentClusters(clusters, Ids(bboxes)), Filter(bboxes, HasCluster(clusters)), frameId, clusterParameters) ==>
              && r.clusterId in clusters
              && clusters[r.clusterId].Some?
              && r.cnt == |clusters[r.clusterId].value|
              && r.cnt >= minPoints
              && r.parameters == clusterParameters(clusters[r.clusterId].value)
              && r.frameId == frameId
              && (exists b :: b in bboxes && b.id == r.clusterId && b.kind == r.cls)
  {
    var valid := Filter(bboxes, HasCluster(clusters));
    FilterMembers(bboxes, HasCluster(clusters));
    var metadata := MetadataFor(PresentClusters(clusters, Ids(bboxes)), valid, frameId, clusterParameters);
    forall r | r in metadata
      ensures r.clusterId in clusters && clusters[r.clusterId].Some?
      ensures exists b :: b in bboxes && b.id == r.clusterId && b.kind == r.cls
    {
      var k :| 0 <= k < |metadata| && metadata[k] == r;
      assert valid[k] in valid;
    }
  }

  /** The plain `parseFrame` hands its comprehension the map `clusterByBBox`
      built from the same boxes, so every lookup finds its key and the
      comprehension succeeds, with the records the visualising version
      computes for the boxes whose cluster is present. */
  lemma PlainFrameMetadataSucceeds(pcl: Cloud, bboxes: seq<BBox>, frameId: int,
                                   pointsInBox: (Cloud, BBox) -> Cluster, clusterParameters: Cluster -> Parameters)
    ensures forall b :: b in bboxes ==> b.id in ClusterMap(pcl, bboxes, pointsInBox, DefaultMinPoints)
    ensures FrameMetadata(ClusterMap(pcl, bboxes, pointsInBox, DefaultMinPoints), bboxes, frameId, clusterParameters).Success?
    ensures forall b :: b in Filter(bboxes, HasCluster(ClusterMap(pcl, bboxes, pointsInBox, DefaultMinPoints)))
              ==> b.id in PresentClusters(ClusterMap(pcl, bboxes, pointsInBox, DefaultMinPoints), Ids(bboxes))
    ensures FrameMetadata(ClusterMap(pcl, bboxes, pointsInBox, DefaultMinPoints), bboxes, frameId, clusterParameters)
            == Success(MetadataFor(PresentClusters(ClusterMap(pcl, bboxes, pointsInBox, DefaultMinPoints), Ids(bboxes)),
                                   Filter(bboxes, HasCluster(ClusterMap(pcl, bboxes, pointsInBox, DefaultMinPoints))),
                                   frameId, clusterParameters))
  {
    var clusters := ClusterMap(pcl, bboxes, pointsInBox, DefaultMinPoints);
    ClusterMapKeys(pcl, bboxes, pointsInBox, DefaultMinPoints);
    FrameMetadataAgrees(clusters, bboxes, frameId, clusterParameters, PresentClusters(clusters, Ids(bboxes)));
  }

  /** The records that survive one frame: cluster with the default minimum
      size, compute metadata for the boxes with a present cluster, keep those
      above the default density. */
  function SelectedRecords(pcl: Cloud, bboxes: seq<BBox>, frameId: int,
                           pointsInBox: (Cloud, BBox) -> Cluster, clusterParameters: Cluster -> Parameters): seq<Features>
  {
    var clusters := ClusterMap(pcl, bboxes, pointsInBox, DefaultMinPoints);
    ClusterMapKeys(pcl, bboxes, pointsInBox, DefaultMinPoints);
    FilterMembers(bboxes, HasCluster(clusters));
    var metadata := MetadataFor(PresentClusters(clusters, Ids(bboxes)), Filter(bboxes, HasCluster(clusters)), frameId, clusterParameters);
    Filter(metadata, IsDense(DefaultMinDensity))
  }

  /** The selection steps of the visualising `parseFrame` with the default
      thresholds: every surviving record is denser than the default density,
      was built from a cluster of at least the default size, belongs to this
      frame and to a box of the frame with the record's id and class, and the
      returned cluster map holds exactly the surviving ids, each with the very
      cluster `clusterByBBox` filed under that id, whose size and features the
      record reports. */
  method ParseFrame(pcl: Cloud, bboxes: seq<BBox>, frameId: int,
                    pointsInBox: (Cloud, BBox) -> Cluster, clusterParameters: Cluster -> Parameters)
    returns (subMetadata: seq<Features>, subClusters: map<string, Cluster>)
    ensures subMetadata == SelectedRecords(pcl, bboxes, frameId, pointsInBox, clusterParameters)
    ensures subClusters.Keys == RecordIds(subMetadata)
    ensures forall r :: r in subMetadata ==>
              && r.parameters[DensityIndex] > DefaultMinDensity
              && r.frameId == frameId
              && r.cnt >= DefaultMinPoints
              && r.clusterId in subClusters
              && |subClusters[r.clusterId]| == r.cnt
              && r.parameters == clusterParameters(subClusters[r.clusterId])
              && (exists b :: b in bboxes && b.id == r.clusterId && b.kind == r.cls)
    ensures forall id :: id in subClusters ==>
              && id in ClusterMap(pcl, bboxes, pointsInBox, DefaultMinPoints)
              && ClusterMap(pcl, bboxes, pointsInBox, DefaultMinPoints)[id] == Some(subClusters[id])
  {
    var clusters := ClusterByBBox(pcl, bboxes, pointsInBox);
    var validClusters, validBBoxes := SelectValid(clusters, bboxes);
    PresentClustersAreLarge(pcl, bboxes, pointsInBox, DefaultMinPoints);
    PresentMetadataFacts(clusters, bboxes, frameId, clusterParameters, DefaultMinPoints);
    var metadata := MetadataFor(validClusters, validBBoxes, frameId, clusterParameters);
    subMetadata, subClusters := FilterMetadata(metadata, validClusters);
    FilterMembers(metadata, IsDense(DefaultMinDensity));
  }

  /** A box's cluster has at least the default number of points. */
  function LargeEnough(pcl: Cloud, pointsInBox: (Cloud, BBox) -> Cluster): BBox -> bool {
    (b: BBox) => |pointsInBox(pcl, b)| >= DefaultMinPoints
  }

  /** A box's cluster is denser than the default density. */
  function DenseEnough(pcl: Cloud, pointsInBox: (Cloud, BBox) -> Cluster, clusterParameters: Cluster -> Parameters): BBox -> bool {
    (b: BBox) => clusterParameters(pointsInBox(pcl, b))[DensityIndex] > DefaultMinDensity
  }

  /** A box passes both gates of the pipeline. */
  function Survives(pcl: Cloud, pointsInBox: (Cloud, BBox) -> Cluster, clusterParameters: Cluster -> Parameters): BBox -> bool {
    (b: BBox) => LargeEnough(pcl, pointsInBox)(b) && DenseEnough(pcl, pointsInBox, clusterParameters)(b)
  }

  /** The record computed for a box from its own cluster. */
  function RecordOf(pcl: Cloud, frameId: int, pointsInBox: (Cloud, BBox) -> Cluster, clusterParameters: Cluster -> Parameters): BBox -> Features {
    (b: BBox) => Features(b.id, frameId, b.kind, |pointsInBox(pcl, b)|, clusterParameters(pointsInBox(pcl, b)))
  }

  /** In a frame whose box ids are unique, the surviving records are exactly
      the records of the boxes whose cluster has at least the default number
      of points and exceeds the default density, in box order. */
  lemma SelectedRecordsUniqueIds(pcl: Cloud, bboxes: seq<BBox>, frameId: int,
                                 pointsInBox: (Cloud, BBox) -> Cluster, clusterParameters: Cluster -> Parameters)
    requires UniqueIds(bboxes)
    ensures SelectedRecords(pcl, bboxes, frameId, pointsInBox, clusterParameters)
            == Map(Filter(bboxes, Survives(pcl, pointsInBox, clusterParameters)), RecordOf(pcl, frameId, pointsInBox, clusterParameters))
  {
    var clusters := ClusterMap(pcl, bboxes, pointsInBox, DefaultMinPoints);
    var large := LargeEnough(pcl, pointsInBox);
    var dense := DenseEnough(pcl, pointsInBox, clusterParameters);
    var record := RecordOf(pcl, frameId, pointsInBox, clusterParameters);
    var present := PresentClusters(clusters, Ids(bboxes));
    ClusterMapKeys(pcl, bboxes, pointsInBox, DefaultMinPoints);
    // each box's own entry decides whether it is valid and what is filed under its id
    forall b | b in bboxes
      ensures HasCluster(clusters)(b) == large(b)
      ensures large(b) ==> b.id in present && present[b.id] == pointsInBox(pcl, b)
    {
      var i :| 0 <= i < |bboxes| && bboxes[i] == b;
      UniqueIdsEntry(pcl, bboxes, pointsInBox, DefaultMinPoints, i);
    }
    FilterCongruent(bboxes, HasCluster(clusters), large);
    var valid := Filter(bboxes, large);
    FilterMembers(bboxes, large);
    var metadata := MetadataFor(present, valid, frameId, clusterParameters);
    assert metadata == Map(valid, record);
    FilterMap(valid, record, IsDense(DefaultMinDensity), dense);
    FilterFilter(bboxes, large, dense, Survives(pcl, pointsInBox, clusterParameters));
  }
}
