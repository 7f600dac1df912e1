# thesis_aux core, modelled in Dafny

This project models the data-preparation utilities of a thesis toolkit for
robot perception. It covers four Python files.

- **Transform-tree pose propagation** (`manage_files/coordenates_computation.py`).
  - Hamilton-product quaternions and the rotation of a vector by a quaternion.
  - Folding parsed `(parent, child, translation, rotation)` records into two
    structures:
    - an adjacency map, in which children keep record order and duplicates;
    - a transform lookup, in which the first record for a pair wins.
  - The queue-driven breadth-first walk from the root. When the walk does
    not fail (see *Missing parent pose* below), the root and every frame it
    reaches through an edge that has a transform get an absolute pose. A
    frame reached only through edges without a transform gets none.
- **The line-based tf adjacency reader** (`manage_files/body_parts.py`).
  - Each stripped line is classified as a `frame_id:` line, a
    `child_frame_id:` line or anything else.
  - A frame line sets the current parent. A child line adds its name to that
    parent's set.
  - Every name seen becomes a key.
  - Each set becomes a sorted list.
  - There are two failures, and the model reports them at the first failing line:
    - a `frame_id:` or `child_frame_id:` line with no `"` (an `IndexError`
      in Python); other lines are never split and cannot fail;
    - a child line before any frame line (an unbound `parent` in Python).
- **Keypoint layout and bounding box** (`make_keypoints.py`).
  - `extract_keypoints` lays out 17 joints in the fixed `CORRECT_ORDER` as
    `x, y, confidence` triples. A missing joint gives three zeros. When two
    parts share an id, the later part wins.
  - `compute_bbox` gives the extremes of the joints with positive
    confidence, or four zeros when there are none. When the length is not a
    multiple of three, Python raises `IndexError`; the model returns an error
    that carries the index.
- **Top-five selection** (`manage_files/keypoints_choose.py`).
  - `count_non_zero` counts the entries that are not zero.
  - Python's `sorted(..., reverse=True)` is a stable descending sort. The
    model specifies it as ordering positions by count (larger first), with
    ties broken by the earlier position first.
  - The first five of the sorted arrays are kept.

Modules and files:

| module | file |
|---|---|
| `Quaternion` | quaternion.dfy |
| `TfRecords` | tf_records.dfy |
| `PosePropagation` | pose_propagation.dfy |
| `TfAdjacency` | tf_adjacency.dfy |
| `Keypoints` | keypoints.dfy |
| `KeypointsChoose` | keypoints_choose.dfy |
| `Wrappers` (`Option`, `Result`) | wrappers.dfy |

Floating-point numbers are modelled as exact `real`s.

**Behaviour of the pose walk that the model keeps as the code has it.**
- *Pose writes.* A child's pose is written each time the child is reached
  through an edge with a transform
  (`manage_files/coordenates_computation.py:100-103`), so the last write wins.
  `PosePropagation.DiamondExample` shows this for a frame with two parents.
- *Termination.* The loop has no visited set. On a cycle reachable from the
  root it either runs forever or first fails on a missing pose (`:86`).
  `ComputeAbsolutePoses` asks for a ghost rank that decreases along every
  listed edge out of a frame reachable from the root. This rules out
  reachable cycles, so the model describes
  neither of those runs.
- *Missing parent pose.* A child whose edge has no transform is still queued
  (`:79-82`). If it has no pose when it is dequeued and it has a child with a
  transform, reading its pose fails (a `KeyError` at `:86`). The model
  returns `Err(MissingParentPose(..))` for this case. If another parent has
  already posed it through a transformed edge, nothing fails.

## Model

| member | source | states |
|---|---|---|
| Quaternion.MultiplyIdentity | manage_files/coordenates_computation.py:11-18 | (1,0,0,0) is a two-sided unit of the Hamilton product |
| Quaternion.MultiplyNotCommutative | manage_files/coordenates_computation.py:11-18 | i·j = k but j·i = −k, so the order of composition matters |
| Quaternion.NormOfProduct | manage_files/coordenates_computation.py:11-18 | the squared norm of a product is the product of the squared norms |
| Quaternion.SandwichIsPure | manage_files/coordenates_computation.py:20-25 | q·(0,v)·q̄ has scalar part zero, so keeping only the vector part loses nothing |
| Quaternion.RotateByIdentity | manage_files/coordenates_computation.py:20-25 | rotating by the identity quaternion leaves every vector unchanged |
| Quaternion.RotateZero | manage_files/coordenates_computation.py:20-25 | the zero vector stays zero under every rotation |
| Quaternion.RotateAdditive | manage_files/coordenates_computation.py:20-25 | rotation distributes over vector addition |
| Quaternion.RotatePreservesLength | manage_files/coordenates_computation.py:20-25 | a unit quaternion preserves vector length |
| TfRecords.FoldRecords | manage_files/coordenates_computation.py:39-59 | every name is a key; each list holds the frame's children in record order; the transform keys are exactly the edges; each edge holds the transform of its first record, rotation reordered to (w,x,y,z) |
| TfRecords.AddLeafFrames | manage_files/coordenates_computation.py:54-57 | the frames that never appear as a parent gain an empty list; existing lists are untouched |
| TfRecords.ChildrenOfMembers | manage_files/coordenates_computation.py:44-47 | c is listed under f iff some record has parent f and child c |
| TfRecords.ChildrenOfKeepsDuplicates | manage_files/coordenates_computation.py:44-47 | c occurs under f exactly as often as records f→c occur |
| TfRecords.ChildrenOfNonParent | manage_files/coordenates_computation.py:54-57 | a frame that is never a parent has no children |
| PosePropagation.ComputeAbsolutePoses | manage_files/coordenates_computation.py:62-106 | the queue loop returns what the propagation function gives for queue [root] with the root at the origin and identity orientation |
| PosePropagation.ExpandSpec | manage_files/coordenates_computation.py:77-104 | expanding a parent succeeds iff it has a pose or no child has a transform; on success each child with a transform gets parent pose ∘ transform and nothing else changes; on failure the error names the parent and a transformed child |
| PosePropagation.AbsolutePosesSound | manage_files/coordenates_computation.py:62-106 | on success: the root keeps the identity pose; every other posed frame is the target of a transform and equals its parent's pose composed with that transform; every posed parent's transformed children have poses; every posed frame is reachable from the root along listed edges, so frames the walk never reaches get no pose; every reachable frame that has a child with a transform is posed, and so is that child. On failure: the named edge is listed and has a transform; its parent is reachable, is not the root, and is listed by a reachable frame through an edge without a transform. When every listed edge has a transform, the walk does not fail |
| PosePropagation.PropagateKeepsRoot | manage_files/coordenates_computation.py:66-104 | the root's pose is never overwritten, only transform targets get poses, and a failure names a transformed edge from a non-root parent |
| PosePropagation.PropagateClosed | manage_files/coordenates_computation.py:72-104 | on success every posed frame's transformed children have poses |
| PosePropagation.PropagateConsistent | manage_files/coordenates_computation.py:86-104 | on success every non-root pose is its parent's final pose composed with the edge transform |
| PosePropagation.PropagateWithin | manage_files/coordenates_computation.py:72-104 | on success every posed frame lies in any set of frames that holds the queue and the earlier poses and is closed under listed edges: only listed children of expanded frames are written. On failure the frame without a pose lies in that set too |
| PosePropagation.PropagateSucceeds | manage_files/coordenates_computation.py:72-104 | when every queued frame has a pose and every listed edge out of a ranked frame has a transform, the walk succeeds: the lookup at :86 never misses |
| PosePropagation.PropagateGrows | manage_files/coordenates_computation.py:72-104 | on success every frame that had a pose still has one: poses are only added or overwritten |
| PosePropagation.PropagateReaches | manage_files/coordenates_computation.py:72-104 | on success, the last frame of any listed path from a queued frame is posed when it has a child with a transform, and so is that child: every such frame is dequeued, and with no pose the lookup at :86 would fail |
| PosePropagation.PropagateFailsUntransformed | manage_files/coordenates_computation.py:77-86 | every queued frame has a pose or was queued through an edge without a transform (:79-81), so the frame whose pose is missing on failure is of the second kind |
| PosePropagation.LeavesDrain | manage_files/coordenates_computation.py:72-77 | a queue of leaves changes no pose |
| PosePropagation.QueueWeightStep | manage_files/coordenates_computation.py:72-104 | replacing the queue head by its children strictly lowers the ranked weight, so the loop ends on ranked input |
| PosePropagation.ChainExample | manage_files/coordenates_computation.py:86-104 | on the chain m→b→c, c's pose is the two transforms composed in order |
| PosePropagation.DiamondExample | manage_files/coordenates_computation.py:99-104 | with two parents, the child ends with the pose from the parent expanded last |
| PosePropagation.MissingTransformExample | manage_files/coordenates_computation.py:78-82 | a child without a transform is skipped and gets no pose |
| PosePropagation.MissingParentExample | manage_files/coordenates_computation.py:78-86 | a transformed child of an un-posed frame makes the walk fail, naming that edge |
| PosePropagation.ChildPoseOfShift | manage_files/coordenates_computation.py:88-97 | a pure translation under the identity orientation adds to the position |
| TfAdjacency.ParseTfLines | manage_files/body_parts.py:6-28 | fails iff some line fails, with the first failing line's error; otherwise every name seen is a key and maps to the strictly sorted list of exactly its child names |
| TfAdjacency.ScanLines | manage_files/body_parts.py:11-20 | the line loop fails at the first failing line; otherwise it collects every name seen and, per parent, the child names seen under it |
| TfAdjacency.AddMissingLinks | manage_files/body_parts.py:22-24 | adds an empty set for each link that is not yet a key; existing sets are unchanged |
| TfAdjacency.SortAll | manage_files/body_parts.py:26-27 | every set becomes a strictly sorted list with the same members |
| TfAdjacency.SortedList | manage_files/body_parts.py:27 | the list is strictly sorted and has exactly the set's members |
| TfAdjacency.StripSpec | manage_files/body_parts.py:12 | strip removes exactly the leading and trailing whitespace and keeps the middle |
| TfAdjacency.StripLeft | manage_files/body_parts.py:12 | the result is a suffix, starts with a non-space and only whitespace was dropped |
| TfAdjacency.StripRight | manage_files/body_parts.py:12 | the result is a prefix, ends with a non-space and only whitespace was dropped |
| TfAdjacency.QuotedFieldMissing | manage_files/body_parts.py:14-17 | the field is missing iff the line holds no `"` |
| TfAdjacency.QuotedFieldAt | manage_files/body_parts.py:14-17 | with the first `"` at k, the field is the text after it up to the next `"` or the end |
| TfAdjacency.UpToQuoteSpec | manage_files/body_parts.py:14-17 | the field is a quote-free prefix that ends at a quote or at the end of the text |
| TfAdjacency.ChildLineIsNotFrameLine | manage_files/body_parts.py:13-16 | a child line never also counts as a frame line |
| TfAdjacency.ChildSetWithinLinks | manage_files/body_parts.py:15-20 | every child name is a link, and so is every parent that has children |
| TfAdjacency.LastParentIsLink | manage_files/body_parts.py:13-15 | the current parent is always a recorded link |
| TfAdjacency.FirstErrorNone | manage_files/body_parts.py:11-20 | no error iff no line fails |
| TfAdjacency.FirstErrorIsFirst | manage_files/body_parts.py:11-20 | the reported error belongs to a failing line, and no earlier line fails |
| TfAdjacency.ChildBeforeAnyFrameFails | manage_files/body_parts.py:16-20 | a child line before any frame line makes the parse fail |
| TfAdjacency.FirstErrorPersists | manage_files/body_parts.py:11-20 | later lines cannot undo an error |
| TfAdjacency.InsertSpec | manage_files/body_parts.py:27 | inserting into a strictly sorted list keeps it sorted and adds exactly the new name |
| TfAdjacency.SortedUnique | manage_files/body_parts.py:27 | two strictly sorted lists with the same members are equal, so the sorted list is determined |
| TfAdjacency.StrLessTransitive | manage_files/body_parts.py:27 | the string order is transitive |
| TfAdjacency.StrLessTotal | manage_files/body_parts.py:27 | any two distinct strings are ordered one way |
| TfAdjacency.StrLessIrreflexive | manage_files/body_parts.py:27 | no string precedes itself |
| TfAdjacency.StrLessAsymmetric | manage_files/body_parts.py:27 | no two strings precede each other |
| Keypoints.ExtractKeypoints | make_keypoints.py:19-29 | 51 numbers; positions 3i..3i+2 hold joint i's triple or three zeros |
| Keypoints.PartMapSpec | make_keypoints.py:24-25 | a joint name is present iff some part has that id, and then it holds the last such part's triple |
| Keypoints.IgnoredPart | make_keypoints.py:24-28 | a part with a different id leaves a joint's slot unchanged |
| Keypoints.SlotLength | make_keypoints.py:28 | every slot holds three numbers |
| Keypoints.CollectDetected | make_keypoints.py:36-41 | fails iff the length is not a multiple of three (at the first incomplete triple); otherwise xs and ys are exactly the x and y values of the triples with positive confidence |
| Keypoints.ComputeBBox | make_keypoints.py:31-46 | fails as the scan does; otherwise four numbers: zeros when nothing is detected, else a box that encloses every detected point and touches one on each side |
| Keypoints.ExtremesBox | make_keypoints.py:42-46 | the minima and maxima of the collected coordinates give the tight enclosing box |
| Keypoints.Min | make_keypoints.py:44-45 | the result is in the list and no larger than any element |
| Keypoints.Max | make_keypoints.py:44-45 | the result is in the list and no smaller than any element |
| KeypointsChoose.CountNonZero | manage_files/keypoints_choose.py:10-11 | the count never exceeds the length |
| KeypointsChoose.CountNonZeroZeros | manage_files/keypoints_choose.py:10-11 | the count is the length minus the number of zeros |
| KeypointsChoose.GatherKeypoints | manage_files/keypoints_choose.py:23-26 | one array per object, in order, with `[]` where an object has no keypoints, as the `Gathered` reading gives |
| KeypointsChoose.SortByCountPermutes | manage_files/keypoints_choose.py:28 | the sort neither adds nor loses an array |
| KeypointsChoose.SortByCountOrdered | manage_files/keypoints_choose.py:28 | sorted position k holds the input at a valid position; counts never increase along the result; equal counts keep their input order (stability) |
| KeypointsChoose.TopFive | manage_files/keypoints_choose.py:30 | keeps min(n, 5) arrays |
| KeypointsChoose.TopFiveMaximal | manage_files/keypoints_choose.py:28-30 | the chosen arrays are the head of the sorted list, and each has a count no smaller than any later one |
| KeypointsChoose.TopKeypoints | manage_files/keypoints_choose.py:23-31 | the result is the first five (or all) of the stably sorted gathered arrays: min(n, 5) arrays in non-increasing count order, each an input object's keypoints; no input array left out has a larger count than a chosen one |
| KeypointsChoose.OrderPermutes | manage_files/keypoints_choose.py:28 | the sorted positions are exactly 0..n−1, each once |
| KeypointsChoose.OrderSorted | manage_files/keypoints_choose.py:28 | the positions are ordered by count, larger first, ties by position |
| KeypointsChoose.InsertIdxPermutes | manage_files/keypoints_choose.py:28 | insertion adds exactly the new position |
| KeypointsChoose.InsertIdxSorted | manage_files/keypoints_choose.py:28 | insertion keeps the positions ordered |
| KeypointsChoose.BeforeTransitive | manage_files/keypoints_choose.py:28 | the sort order is transitive |
| KeypointsChoose.OrderPicks | manage_files/keypoints_choose.py:28 | picking the first n arrays in sorted order gives the same multiset as the first n arrays |

## Left out

- The regular expression and the `float` parsing of `parse_tf_file` in
  `manage_files/coordenates_computation.py` are not modelled. Records come in
  already parsed, as `TfRecord` values.
- Reading the file and splitting it into lines is not modelled.
  `TfAdjacency.ParseTfLines` takes the lines.
- The `__main__` blocks, the module-level usage code and all printing are not
  modelled. This includes the "Missing transformation" message and the
  "Skipping line" message.
- YAML and JSON reading are not modelled: `parse_yaml_file`, `json.loads` with
  its per-line error skipping, and `main` in `make_keypoints.py`. Their outputs
  are parameters: `BodyPart` values, and `CoordObject` values whose
  `keypoints` may be missing.
- `manage_files/draw_poins.py` is not part of this model. It only draws.
- Floating point: every number is an exact `real`, so rounding, NaN and
  infinities are not modelled. In `compute_bbox` a `nan` confidence would
  compare differently.
- PosePropagation.ComputeAbsolutePoses: requires a ghost rank that strictly
  decreases along every listed edge out of a frame reachable from the root. On a reachable cycle the
  Python loop either runs forever or fails on a missing pose. The model
  describes neither run.
- KeypointsChoose.CountNonZero: the `v != 0` test is modelled on reals only.
  Python would also count non-numeric entries such as strings or nested
  lists, which the model does not cover.
- TfAdjacency.ParseTfLines: the result's order of keys is not modelled,
  because Python's dict order only affects printing.
