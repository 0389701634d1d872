# Per-frame cluster selection of `DatasetCreator` (ml-person-detection)

`DatasetCreator` turns one Waymo LIDAR frame into labelled training records.
This Dafny project models the selection steps of that pipeline and proves
what they promise:

- `clusterByBBox` files, under each label box's id, the points of the
  ground-filtered cloud that lie inside the box. It stores `None` instead
  when there are fewer than `thresh` points (default 5).
- `computeClusterMetadata` turns one present cluster into a `Features`
  record. The record holds the box id, the frame id, the box class, the
  point count and a feature vector whose index 7 is the density. It raises
  `TypeError` when handed `None`.
- `filterMetadata` keeps, in order, the records whose density is strictly
  above `thresh` (default 20). It also builds the matching id-to-cluster map.
- `parseFrame` chains these steps. It computes metadata only for boxes whose
  cluster is present, then density-filters the records.

`get_pts_in_bbox` and `extract_cluster_parameters` live in
`modules/helperFunctions`, which this model does not cover, so the model
takes them as function parameters and leaves them uninterpreted:

- `pointsInBox` stands for `get_pts_in_bbox`. It returns the cluster of
  one box. The model never inspects a cluster's points: it compares the
  cluster's length with the thresholds and passes the cluster on unchanged
  (to `clusterParameters` and into the returned cluster map).
- `clusterParameters` stands for `extract_cluster_parameters`. It returns a
  vector of `real`s of length greater than 7.

A cluster is a sequence of points. Python's `None` is `Option.None`, and a
raised exception is `Result.Failure`.

Files:

- `wrappers.dfy`: `Option` and `Result`.
- `sequences.dfy`: an order-preserving `Filter`, built the way an append
  loop builds it, with lemmas about kept positions, multiplicities,
  congruence, composition and mapping.
- `dataset_creator.dfy`: the data model and the three steps of
  `DatasetCreator`.
- `frame_selection.dfy`: the selection part of `parseFrame`, in both
  versions: the plain one and the visualising one.

Two facts about the code that the model keeps:

- `computeClusterMetadata` rejects only `None` (:135), not an empty
  cluster. An empty cluster gets through when `thresh` is 0 or less.
- Nothing in createDataset.py checks box volume. `get_pts_in_bbox` is given
  the box (:102), but it is not part of this model. `extract_cluster_parameters`
  is given only the cluster (:146), so no box volume reaches the density
  computation in this file.

## Model

| member | source | states |
|---|---|---|
| `DatasetCreator.ClusterByBBox` | scripts/develNet/createDataset.py:81-120 | The loop over the boxes yields the map `ClusterMap` (each box writes its entry in box order), and its keys are exactly the box ids |
| `DatasetCreator.ClusterMapKeys` | scripts/develNet/createDataset.py:97-111 | Every box id is a key of the returned map, and there is no other key |
| `DatasetCreator.ClusterMapEntry` | scripts/develNet/createDataset.py:100-111 | The last box with a given id decides that id's entry (later boxes overwrite earlier ones). The entry is present exactly when that box's cluster has at least `thresh` points (inclusive bound), and a present entry is that cluster |
| `DatasetCreator.UniqueIdsEntry` | scripts/develNet/createDataset.py:108-111 | When box ids are unique, every box's entry is its own cluster if the cluster has at least `thresh` points, and `None` otherwise |
| `DatasetCreator.ComputeClusterMetadata` | scripts/develNet/createDataset.py:122-149 | Fails with `TypeError` exactly when the cluster is `None`. Otherwise the record has `cluster_id` = box id, the given `frame_id`, `cls` = box type, `cnt` = the number of points, and the extractor's parameters |
| `DatasetCreator.KeptRecords` | scripts/develNet/createDataset.py:173-178 | The density filter keeps a record exactly when `parameters[7] > thresh`. The bound is strict, so a record at the threshold is dropped. Each kept record appears as often as in the input |
| `DatasetCreator.KeptRecordsInOrder` | scripts/develNet/createDataset.py:173-178 | Kept records keep their relative order: the k-th kept record is the input record at the k-th position whose density exceeds `thresh` |
| `DatasetCreator.FilterMetadata` | scripts/develNet/createDataset.py:151-183 | Returns the order-preserving density filter of the records. The new cluster map has exactly the kept records' ids as keys, and each maps to the input's cluster unchanged. Only the ids of kept records must be keys of the input map |
| `FrameSelection.PresentClustersAreLarge` | scripts/develNet/createDataset.py:107-111 | Every present entry of the cluster map holds at least `thresh` points |
| `FrameSelection.SelectValid` | scripts/develNet/createDataset.py:347-352 | `valid_bboxes` is the boxes with a present cluster, in box order. `valid_clusters` is exactly the present clusters under the box ids, unwrapped, and its keys are the ids of `valid_bboxes` |
| `FrameSelection.MetadataFor` | scripts/develNet/createDataset.py:363-364 | One record per valid box, in order. Each record carries the box's id and class, the frame id, and the size and features of the cluster filed under the box's id |
| `FrameSelection.MetadataIdsMatchValidClusters` | scripts/develNet/createDataset.py:363-366 | The record ids and the keys of `valid_clusters` are the same set |
| `FrameSelection.FrameMetadata` | scripts/develNet/createDataset.py:216-218 | The guarded comprehension never raises, because the extractor is never handed `None`. It yields at most one record per box |
| `FrameSelection.PlainFrameMetadataSucceeds` | scripts/develNet/createDataset.py:216-218 | Given the map `clusterByBBox` built from the same boxes, every box id is a key, so the comprehension succeeds, and its records are the ones the visualising version computes for the boxes whose cluster is present |
| `FrameSelection.FrameMetadataAgrees` | scripts/develNet/createDataset.py:217-218 | The plain comprehension equals the visualising one (:363-364) over the boxes whose cluster is present, taken in box order |
| `FrameSelection.PresentMetadataFacts` | scripts/develNet/createDataset.py:347-364 | Each record computed from the present clusters names a present cluster under its id. It reports that cluster's size (at least the minimum) and its features, plus this frame, and there is a box of the frame with its id and class |
| `FrameSelection.ParseFrame` | scripts/develNet/createDataset.py:344-378 | Every surviving record has density > 20, a cluster of at least 5 points, this frame's id, and a box of the frame with its id and class. The returned cluster map has exactly the surviving ids as keys. Each id maps to the very cluster that `clusterByBBox` filed under it, and the record reports that cluster's size and features |
| `FrameSelection.SelectedRecordsUniqueIds` | scripts/develNet/createDataset.py:344-378 | With unique box ids, the surviving records are exactly the records of the boxes whose cluster has at least 5 points and whose density exceeds 20, in box order |

## Left out

- `filterPcl` and `remove_groundplane`: ground removal runs on numpy float arrays inside `remove_groundplane` of `modules/helperFunctions`, which is not part of this model. The pipeline takes the already ground-filtered cloud as input.
- `get_pts_in_bbox` and `extract_cluster_parameters`: their float geometry lives in `modules/helperFunctions`, which is not part of this model. They are uninterpreted function parameters, and no density formula is claimed.
- Floating point: densities and thresholds are Dafny `real`s, used only in the threshold comparison.
- `saveClusterMetadata`, `checkDataFile` and `run`: JSON files, the file system, TFRecord iteration, TensorFlow and progress output.
- `__init__` logger setup, every logging call, the ROS publishing and parameter reads of `DatasetCreatorVis`, and the `__main__` block.
- The plain `parseFrame` calls `filterMetadata` with one argument at :220, which raises `TypeError`. The model uses the two-argument call of :377-378, and `FrameMetadata` covers the plain version's comprehension only.
- The dictionary comprehension at :345 is overwritten at :347 and is not modelled. It uses `iteritems`, which exists only in Python 2: under Python 3 that line would raise `AttributeError`.
- The "final count" logged at :119 counts keys rather than present clusters. It is logging only and is not modelled.
- Dictionary iteration order is not modelled, because Dafny maps have no order. The order is arbitrary in the Python 2 this code targets, and it only affects visualisation (:357, :384).
- `FrameMetadata`: its own contract says only that it succeeds and how long the result can be. What the records contain is stated through `FrameMetadataAgrees`.
- Missing keys: Python raises `KeyError` when a looked-up id is missing (:177, :217, :350, :363). `FilterMetadata`, `FrameMetadata`, `SelectValid` and `MetadataFor` instead require exactly the condition under which no lookup misses. In the flows of `parseFrame` the condition always holds: `ParseFrame` discharges it for `SelectValid`, `MetadataFor` and `FilterMetadata`, and `PlainFrameMetadataSucceeds` discharges it for `FrameMetadata`. That error path is therefore not modelled.
- `clusterParameters` is a total function, so the model assumes `extract_cluster_parameters` never fails. The docstring at :87-88 hints that it can hit math errors on tiny clusters. Part of `FrameMetadata`'s "never raises" therefore holds by construction, not by proof.
