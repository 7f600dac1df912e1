/**
 * Flattening one detected person's body parts into the fixed 17-joint
 * keypoint layout (x, y, confidence per joint, 51 numbers in all) and the
 * bounding box of the joints detected with positive confidence.
 */
module Keypoints {
  import opened Wrappers

  /** The joint order of the output layout. */
  const CorrectOrder: seq<string> :=
    ["Nose", "LEye", "REye", "LEar", "REar",
     "LShoulder", "RShoulder", "LElbow", "RElbow", "LWrist", "RWrist",
     "LHip", "RHip", "LKnee", "RKnee", "LAnkle", "RAnkle"]

  /** One detected body part, its numeric fields already converted. */
  datatype BodyPart = BodyPart(partId: string, x: real, y: real, confidence: real)

  function Triple(bp: BodyPart): seq<real>
  {
    [bp.x, bp.y, bp.confidence]
  }

  /** The id -> [x, y, confidence] map built over the parts in order; a later part with the same id replaces an earlier one. */
  function PartMap(parts: seq<BodyPart>): map<string, seq<real>>
  {
    if parts == [] then map[]
    else
      var last := parts[|parts| - 1];
      PartMap(parts[..|parts| - 1])[last.partId := Triple(last)]
  }

  /** What the layout holds for one joint name: its triple, or three zeros when no part has that id. */
  function Slot(parts: seq<BodyPart>, name: string): seq<real>
  {
    var m := PartMap(parts);
    if name in m then m[name] else [0.0, 0.0, 0.0]
  }

  /**
   * A name is in the part map exactly when some part has that id, and then
   * it maps to the triple of the last such part.
   */
  lemma {:induction false} PartMapSpec(parts: seq<BodyPart>, name: string)
    ensures name in PartMap(parts) <==> exists j :: 0 <= j < |parts| && parts[j].partId == name
    ensures name in PartMap(parts) ==>
              exists j :: 0 <= j < |parts| && parts[j].partId == name &&
                          PartMap(parts)[name] == Triple(parts[j]) &&
                          forall k :: j < k < |parts| ==> parts[k].partId != name
  {
    if parts != [] {
      var n := |parts| - 1;
      var init := parts[..n];
      PartMapSpec(init, name);
      if parts[n].partId != name && name in PartMap(init) {
        var j :| 0 <= j < n && init[j].partId == name && PartMap(init)[name] == Triple(init[j]) &&
                 forall k :: j < k < n ==> init[k].partId != name;
        assert parts[j] == init[j];
      }
      if parts[n].partId != name {
        assert forall j :: 0 <= j < n ==> parts[j] == init[j];
      }
    }
  }

  /** A part whose id is not a joint name leaves every joint's slot as it was. */
  lemma IgnoredPart(parts: seq<BodyPart>, p: BodyPart, name: string)
    requires p.partId != name
    ensures Slot(parts + [p], name) == Slot(parts, name)
  {
    assert (parts + [p])[..|parts|] == parts;
  }

  /** Every slot holds three numbers. */
  lemma SlotLength(parts: seq<BodyPart>, name: string)
    ensures |Slot(parts, name)| == 3
  {
    if name in PartMap(parts) {
      PartMapSpec(parts, name);
      var j :| 0 <= j < |parts| && parts[j].partId == name && PartMap(parts)[name] == Triple(parts[j]) &&
               forall k :: j < k < |parts| ==> parts[k].partId != name;
    }
  }

  /** Appending a triple keeps the earlier triples and puts the new one last. */
  lemma AppendTriple(kps: seq<real>, triple: seq<real>)
    requires |kps| % 3 == 0 && |triple| == 3
    ensures forall j :: 0 <= j < |kps| / 3 ==> (kps + triple)[3 * j..3 * j + 3] == kps[3 * j..3 * j + 3]
    ensures (kps + triple)[|kps|..|kps| + 3] == triple
  {
  }

  /** Joint i occupies positions 3i, 3i+1, 3i+2 of the layout. */
  method ExtractKeypoints(parts: seq<BodyPart>) returns (kps: seq<real>)
    ensures |kps| == 3 * |CorrectOrder|
    ensures forall i :: 0 <= i < |CorrectOrder| ==> kps[3 * i..3 * i + 3] == Slot(parts, CorrectOrder[i])
  {
    var partMap := PartMap(parts);
    kps := [];
    for i := 0 to |CorrectOrder|
      invariant |kps| == 3 * i
      invariant forall j :: 0 <= j < i ==> kps[3 * j..3 * j + 3] == Slot(parts, CorrectOrder[j])
    {
      var name := CorrectOrder[i];
      var triple := if name in partMap then partMap[name] else [0.0, 0.0, 0.0];
      SlotLength(parts, name);
      assert triple == Slot(parts, name);
      AppendTriple(kps, triple);
      kps := kps + triple;
    }
  }

  /** Reading a short input past its end. */
  datatype BBoxError = IncompleteTriple(index: nat)

  /** i starts a triple of kps whose confidence is positive. */
  ghost predicate Detected(kps: seq<real>, i: int)
  {
    0 <= i && i + 2 < |kps| && i % 3 == 0 && kps[i + 2] > 0.0
  }

  function Min(s: seq<real>): (m: real)
    requires s != []
    ensures m in s && forall v :: v in s ==> m <= v
  {
    if |s| == 1 then s[0]
    else
      var rest := Min(s[1..]);
      assert forall v :: v in s ==> v == s[0] || v in s[1..];
      if s[0] <= rest then s[0] else rest
  }

  function Max(s: seq<real>): (m: real)
    requires s != []
    ensures m in s && forall v :: v in s ==> v <= m
  {
    if |s| == 1 then s[0]
    else
      var rest := Max(s[1..]);
      assert forall v :: v in s ==> v == s[0] || v in s[1..];
      if s[0] >= rest then s[0] else rest
  }

  /** The stepped loop: the x and y of every triple with positive confidence. */
  method CollectDetected(kps: seq<real>) returns (r: Result<(seq<real>, seq<real>), BBoxError>)
    ensures r.Err? <==> |kps| % 3 != 0
    ensures r.Err? ==> r.error == IncompleteTriple(|kps| - |kps| % 3)
    ensures r.Ok? ==> forall v :: v in r.value.0 <==> exists j :: Detected(kps, j) && kps[j] == v
    ensures r.Ok? ==> forall v :: v in r.value.1 <==> exists j :: Detected(kps, j) && kps[j + 1] == v
  {
    var xs: seq<real> := [];
    var ys: seq<real> := [];
    var i := 0;
    while i < |kps|
      invariant 0 <= i <= |kps| && i % 3 == 0
      invariant forall v :: v in xs <==> exists j :: Detected(kps, j) && j < i && kps[j] == v
      invariant forall v :: v in ys <==> exists j :: Detected(kps, j) && j < i && kps[j + 1] == v
      decreases |kps| - i
    {
      if i + 2 >= |kps| {
        return Err(IncompleteTriple(i));
      }
      var x, y, c := kps[i], kps[i + 1], kps[i + 2];
      assert forall j :: Detected(kps, j) && j < i + 3 ==> j < i || j == i;
      if c > 0.0 {
        assert Detected(kps, i);
        xs := xs + [x];
        ys := ys + [y];
      }
      i := i + 3;
    }
    forall j | Detected(kps, j) ensures j < i {
    }
    return Ok((xs, ys));
  }

  /** box = [x0, y0, x1, y1] contains the point of every detected triple. */
  ghost predicate Encloses(kps: seq<real>, box: seq<real>)
    requires |box| == 4
  {
    forall j :: Detected(kps, j) ==> box[0] <= kps[j] <= box[2] && box[1] <= kps[j + 1] <= box[3]
  }

  /** Each side of box = [x0, y0, x1, y1] touches some detected triple. */
  ghost predicate Tight(kps: seq<real>, box: seq<real>)
    requires |box| == 4
  {
    (exists j :: Detected(kps, j) && kps[j] == box[0]) &&
    (exists j :: Detected(kps, j) && kps[j + 1] == box[1]) &&
    (exists j :: Detected(kps, j) && kps[j] == box[2]) &&
    (exists j :: Detected(kps, j) && kps[j + 1] == box[3])
  }

  lemma DetectedCollected(kps: seq<real>, xs: seq<real>, ys: seq<real>, j: int)
    requires forall v :: v in xs <==> exists j :: Detected(kps, j) && kps[j] == v
    requires forall v :: v in ys <==> exists j :: Detected(kps, j) && kps[j + 1] == v
    requires Detected(kps, j)
    ensures kps[j] in xs && kps[j + 1] in ys
  {
    var x, y := kps[j], kps[j + 1];
    assert Detected(kps, j) && kps[j] == x;
    assert Detected(kps, j) && kps[j + 1] == y;
  }

  /** The extremes of the collected coordinates form the tight enclosing box. */
  lemma ExtremesBox(kps: seq<real>, xs: seq<real>, ys: seq<real>)
    requires xs != [] && ys != []
    requires forall v :: v in xs <==> exists j :: Detected(kps, j) && kps[j] == v
    requires forall v :: v in ys <==> exists j :: Detected(kps, j) && kps[j + 1] == v
    ensures Encloses(kps, [Min(xs), Min(ys), Max(xs), Max(ys)])
    ensures Tight(kps, [Min(xs), Min(ys), Max(xs), Max(ys)])
  {
    var box := [Min(xs), Min(ys), Max(xs), Max(ys)];
    forall j | Detected(kps, j)
      ensures box[0] <= kps[j] <= box[2] && box[1] <= kps[j + 1] <= box[3]
    {
      DetectedCollected(kps, xs, ys, j);
    }
    ghost var j0 := XWitness(kps, xs, box[0]);
    ghost var j1 := YWitness(kps, ys, box[1]);
    ghost var j2 := XWitness(kps, xs, box[2]);
    ghost var j3 := YWitness(kps, ys, box[3]);
  }

  lemma XWitness(kps: seq<real>, xs: seq<real>, v: real) returns (j: int)
    requires forall v :: v in xs <==> exists j :: Detected(kps, j) && kps[j] == v
    requires v in xs
    ensures Detected(kps, j) && kps[j] == v
  {
    j :| Detected(kps, j) && kps[j] == v;
  }

  lemma YWitness(kps: seq<real>, ys: seq<real>, v: real) returns (j: int)
    requires forall v :: v in ys <==> exists j :: Detected(kps, j) && kps[j + 1] == v
    requires v in ys
    ensures Detected(kps, j) && kps[j + 1] == v
  {
    j :| Detected(kps, j) && kps[j + 1] == v;
  }

  /**
   * [x_min, y_min, x_max, y_max] over the triples with positive confidence,
   * [0, 0, 0, 0] when there is none, and a failure when the length is not a
   * multiple of three.
   */
  method ComputeBBox(kps: seq<real>) returns (r: Result<seq<real>, BBoxError>)
    ensures r.Err? <==> |kps| % 3 != 0
    ensures r.Err? ==> r.error == IncompleteTriple(|kps| - |kps| % 3)
    ensures r.Ok? ==> |r.value| == 4
    ensures r.Ok? && (forall i :: !Detected(kps, i)) ==> r.value == [0.0, 0.0, 0.0, 0.0]
    ensures r.Ok? && (exists i :: Detected(kps, i)) ==> Encloses(kps, r.value) && Tight(kps, r.value)
  {
    var collected := CollectDetected(kps);
    if collected.Err? {
      return Err(collected.error);
    }
    var xs, ys := collected.value.0, collected.value.1;
    if xs == [] || ys == [] {
      forall i | Detected(kps, i) ensures false {
        DetectedCollected(kps, xs, ys, i);
      }
      return Ok([0.0, 0.0, 0.0, 0.0]);
    }
    ExtremesBox(kps, xs, ys);
    var xMin, xMax := Min(xs), Max(xs);
    var yMin, yMax := Min(ys), Max(ys);
    return Ok([xMin, yMin, xMax, yMax]);
  }
}
