/**
 * Breadth-first propagation of absolute poses down the transform tree.
 *
 * The root starts at the origin with the identity orientation. Each frame
 * taken from the front of the queue that has an adjacency list is expanded:
 * for every child in list order, if the (parent, child) pair has a transform,
 * the child's pose becomes the parent's pose composed with that transform
 * (overwriting any pose the child already had), and the child is queued;
 * a child without a transform is queued without a pose. Reading the pose of
 * a parent that has none is the one failure.
 *
 * The queue never remembers visited frames, so on a cycle reachable from the
 * root the loop either runs forever or first fails on a missing pose. The
 * ghost rank below rules out reachable cycles; the model describes neither
 * of those runs.
 */
module PosePropagation {
  import opened Wrappers
  import opened Quaternion
  import opened TfRecords

  datatype Pose = Pose(position: Vec3, orientation: Quat)

  /** The root frame's pose: at the origin, identity orientation. */
  const RootPose: Pose := Pose(Zero, Identity)

  /** Reading the pose of `parent` while expanding it toward `child` found none. */
  datatype PoseError = MissingParentPose(parent: Frame, child: Frame)

  /** The absolute pose of a child from its parent's absolute pose and the relative transform. */
  function ChildPose(parent: Pose, t: Transform): Pose
  {
    Pose(Add(parent.position, RotateVector(parent.orientation, t.translation)),
         Multiply(parent.orientation, t.rotation))
  }

  /** Every ranked frame's children are ranked, and strictly lower. */
  ghost predicate Closed(conn: map<Frame, seq<Frame>>, rank: map<Frame, nat>)
  {
    forall f, c :: f in rank && f in conn && c in conn[f] ==> c in rank && rank[c] < rank[f]
  }

  /** No cycle of the adjacency map is reachable from the root. */
  ghost predicate Ranked(conn: map<Frame, seq<Frame>>, root: Frame, rank: map<Frame, nat>)
  {
    root in rank && Closed(conn, rank)
  }

  /** The number of expansions that dequeuing f will cause, itself included. */
  ghost function Weight(conn: map<Frame, seq<Frame>>, rank: map<Frame, nat>, f: Frame): nat
    requires Closed(conn, rank) && f in rank
    decreases rank[f], 1
  {
    if f in conn then 1 + WeightSum(conn, rank, conn[f], rank[f]) else 1
  }

  ghost function WeightSum(conn: map<Frame, seq<Frame>>, rank: map<Frame, nat>, cs: seq<Frame>, bound: nat): nat
    requires Closed(conn, rank)
    requires forall c :: c in cs ==> c in rank && rank[c] < bound
    decreases bound, 0, |cs|
  {
    if cs == [] then 0 else Weight(conn, rank, cs[0]) + WeightSum(conn, rank, cs[1..], bound)
  }

  ghost function QueueWeight(conn: map<Frame, seq<Frame>>, rank: map<Frame, nat>, queue: seq<Frame>): nat
    requires Closed(conn, rank)
    requires forall f :: f in queue ==> f in rank
  {
    if queue == [] then 0 else Weight(conn, rank, queue[0]) + QueueWeight(conn, rank, queue[1..])
  }

  lemma {:induction false} WeightSumIsQueueWeight(conn: map<Frame, seq<Frame>>, rank: map<Frame, nat>, cs: seq<Frame>, bound: nat)
    requires Closed(conn, rank)
    requires forall c :: c in cs ==> c in rank && rank[c] < bound
    ensures WeightSum(conn, rank, cs, bound) == QueueWeight(conn, rank, cs)
  {
    if cs != [] {
      WeightSumIsQueueWeight(conn, rank, cs[1..], bound);
    }
  }

  lemma {:induction false} QueueWeightAppend(conn: map<Frame, seq<Frame>>, rank: map<Frame, nat>, a: seq<Frame>, b: seq<Frame>)
    requires Closed(conn, rank)
    requires forall f :: f in a ==> f in rank
    requires forall f :: f in b ==> f in rank
    ensures QueueWeight(conn, rank, a + b) == QueueWeight(conn, rank, a) + QueueWeight(conn, rank, b)
  {
    if a != [] {
      assert (a + b)[1..] == a[1..] + b;
      QueueWeightAppend(conn, rank, a[1..], b);
    } else {
      assert a + b == b;
    }
  }

  /** Expanding the front of the queue replaces one unit of weight by its children's. */
  lemma QueueWeightStep(conn: map<Frame, seq<Frame>>, rank: map<Frame, nat>, queue: seq<Frame>)
    requires Closed(conn, rank)
    requires queue != [] && forall f :: f in queue ==> f in rank
    ensures queue[0] in conn ==>
              (forall c :: c in conn[queue[0]] ==> c in rank) &&
              QueueWeight(conn, rank, queue[1..] + conn[queue[0]]) < QueueWeight(conn, rank, queue)
    ensures QueueWeight(conn, rank, queue[1..]) < QueueWeight(conn, rank, queue)
  {
    var f := queue[0];
    if f in conn {
      assert forall c :: c in conn[f] ==> c in rank;
      WeightSumIsQueueWeight(conn, rank, conn[f], rank[f]);
      QueueWeightAppend(conn, rank, queue[1..], conn[f]);
    }
  }

  /**
   * One expansion of parent p over the children cs, in order: a child with a
   * transform gets a pose computed from p's current pose; a child without one
   * is skipped; p without a pose fails at its first child with a transform.
   */
  function Expand(trans: map<Edge, Transform>, p: Frame, cs: seq<Frame>, poses: map<Frame, Pose>)
    : Result<map<Frame, Pose>, PoseError>
  {
    if cs == [] then Ok(poses)
    else if (p, cs[0]) !in trans then Expand(trans, p, cs[1..], poses)
    else if p !in poses then Err(MissingParentPose(p, cs[0]))
    else Expand(trans, p, cs[1..], poses[cs[0] := ChildPose(poses[p], trans[(p, cs[0])])])
  }

  /** The children of p that an expansion over cs writes a pose for. */
  ghost function Written(trans: map<Edge, Transform>, p: Frame, cs: seq<Frame>): set<Frame>
  {
    set c | c in cs && (p, c) in trans
  }

  /**
   * An expansion succeeds exactly when the parent has a pose or none of the
   * children has a transform; on success it writes every child with a
   * transform from the parent's pose and leaves every other frame alone; on
   * failure it names the parent and one of its transformed children.
   */
  lemma {:induction false} ExpandSpec(trans: map<Edge, Transform>, p: Frame, cs: seq<Frame>, poses: map<Frame, Pose>)
    requires p !in cs
    ensures Expand(trans, p, cs, poses).Ok? <==> p in poses || Written(trans, p, cs) == {}
    ensures Expand(trans, p, cs, poses).Ok? ==>
              var next := Expand(trans, p, cs, poses).value;
              next.Keys == poses.Keys + Written(trans, p, cs) &&
              (forall k :: k in next && k !in Written(trans, p, cs) ==> next[k] == poses[k]) &&
              (forall c :: c in Written(trans, p, cs) ==> next[c] == ChildPose(poses[p], trans[(p, c)]))
    ensures Expand(trans, p, cs, poses).Err? ==>
              var e := Expand(trans, p, cs, poses).error;
              p !in poses && e.parent == p && e.child in Written(trans, p, cs)
  {
    if cs != [] {
      var c := cs[0];
      assert Written(trans, p, cs) == Written(trans, p, cs[1..]) + (if (p, c) in trans then {c} else {});
      if (p, c) !in trans {
        ExpandSpec(trans, p, cs[1..], poses);
      } else if p in poses {
        var poses' := poses[c := ChildPose(poses[p], trans[(p, c)])];
        ExpandSpec(trans, p, cs[1..], poses');
        assert poses'[p] == poses[p];
      }
    }
  }

  /** The whole propagation loop from a given queue and pose map. */
  ghost function Propagate(conn: map<Frame, seq<Frame>>, trans: map<Edge, Transform>, rank: map<Frame, nat>,
                           queue: seq<Frame>, poses: map<Frame, Pose>): Result<map<Frame, Pose>, PoseError>
    requires Closed(conn, rank)
    requires forall f :: f in queue ==> f in rank
    decreases QueueWeight(conn, rank, queue)
  {
    if queue == [] then Ok(poses)
    else
      QueueWeightStep(conn, rank, queue);
      var f := queue[0];
      if f !in conn then Propagate(conn, trans, rank, queue[1..], poses)
      else match Expand(trans, f, conn[f], poses)
        case Err(e) => Err(e)
        case Ok(next) => Propagate(conn, trans, rank, queue[1..] + conn[f], next)
  }

  /** Every frame that some transform names as its child. */
  ghost function Targets(trans: map<Edge, Transform>): set<Frame>
  {
    set e | e in trans :: e.1
  }

  /** A frame is never listed among its own children when it is ranked. */
  lemma NotOwnChild(conn: map<Frame, seq<Frame>>, rank: map<Frame, nat>, f: Frame)
    requires Closed(conn, rank) && f in rank && f in conn
    ensures f !in conn[f]
    ensures forall c :: c in conn[f] ==> c in rank && rank[c] < rank[f]
  {
  }

  /**
   * The root's pose is never overwritten, only the root and children of
   * transforms get poses, and a failure names a transformed edge whose parent
   * is not the root.
   */
  lemma {:induction false} PropagateKeepsRoot(conn: map<Frame, seq<Frame>>, trans: map<Edge, Transform>,
                                              rank: map<Frame, nat>, root: Frame,
                                              queue: seq<Frame>, poses: map<Frame, Pose>)
    requires Closed(conn, rank) && root in rank
    requires forall f :: f in queue ==> f in rank && rank[f] <= rank[root]
    requires root in poses && poses[root] == RootPose
    requires forall k :: k in poses ==> k == root || k in Targets(trans)
    ensures var r := Propagate(conn, trans, rank, queue, poses);
            (r.Ok? ==> root in r.value && r.value[root] == RootPose &&
                       forall k :: k in r.value ==> k == root || k in Targets(trans)) &&
            (r.Err? ==> r.error.parent != root && r.error.parent in conn &&
                        r.error.child in conn[r.error.parent] && (r.error.parent, r.error.child) in trans)
    decreases QueueWeight(conn, rank, queue)
  {
    if queue != [] {
      QueueWeightStep(conn, rank, queue);
      var f := queue[0];
      if f !in conn {
        PropagateKeepsRoot(conn, trans, rank, root, queue[1..], poses);
      } else {
        NotOwnChild(conn, rank, f);
        ExpandSpec(trans, f, conn[f], poses);
        var r := Expand(trans, f, conn[f], poses);
        if r.Ok? {
          forall k | k in Written(trans, f, conn[f]) ensures k != root && k in Targets(trans) {
            assert (f, k) in trans;
          }
          PropagateKeepsRoot(conn, trans, rank, root, queue[1..] + conn[f], r.value);
        }
      }
    }
  }

  /** The transformed children of p all have poses. */
  ghost predicate ChildrenPosed(conn: map<Frame, seq<Frame>>, trans: map<Edge, Transform>,
                                poses: map<Frame, Pose>, p: Frame)
    requires p in conn
  {
    forall c :: c in conn[p] && (p, c) in trans ==> c in poses
  }

  /**
   * On success the result is closed under transformed edges: every frame
   * with a pose has poses for all its children that have a transform.
   */
  lemma {:induction false} PropagateClosed(conn: map<Frame, seq<Frame>>, trans: map<Edge, Transform>,
                                           rank: map<Frame, nat>, queue: seq<Frame>, poses: map<Frame, Pose>)
    requires Closed(conn, rank)
    requires forall f :: f in queue ==> f in rank
    requires forall p :: p in poses && p in conn && p !in queue ==> ChildrenPosed(conn, trans, poses, p)
    ensures var r := Propagate(conn, trans, rank, queue, poses);
            r.Ok? ==> forall p :: p in r.value && p in conn ==> ChildrenPosed(conn, trans, r.value, p)
    decreases QueueWeight(conn, rank, queue)
  {
    if queue != [] {
      QueueWeightStep(conn, rank, queue);
      var f := queue[0];
      assert forall p :: p in queue && p !in queue[1..] ==> p == f;
      if f !in conn {
        PropagateClosed(conn, trans, rank, queue[1..], poses);
      } else {
        NotOwnChild(conn, rank, f);
        ExpandSpec(trans, f, conn[f], poses);
        var r := Expand(trans, f, conn[f], poses);
        if r.Ok? {
          var next, q := r.value, queue[1..] + conn[f];
          forall p | p in next && p in conn && p !in q
            ensures ChildrenPosed(conn, trans, next, p)
          {
            assert p !in Written(trans, f, conn[f]);
            if p != f {
              assert ChildrenPosed(conn, trans, poses, p);
            }
          }
          PropagateClosed(conn, trans, rank, q, next);
        }
      }
    }
  }

  /** c's pose is p's pose composed with the transform of the listed edge p -> c. */
  ghost predicate Settled(conn: map<Frame, seq<Frame>>, trans: map<Edge, Transform>,
                          poses: map<Frame, Pose>, p: Frame, c: Frame)
  {
    p in conn && c in conn[p] && (p, c) in trans && p in poses && c in poses &&
    poses[c] == ChildPose(poses[p], trans[(p, c)])
  }

  /** Some queued frame will rewrite c's pose when it is expanded. */
  ghost predicate Pending(conn: map<Frame, seq<Frame>>, trans: map<Edge, Transform>, queue: seq<Frame>, c: Frame)
  {
    exists p :: p in queue && p in conn && c in conn[p] && (p, c) in trans
  }

  ghost predicate Consistent(conn: map<Frame, seq<Frame>>, trans: map<Edge, Transform>, root: Frame,
                             queue: seq<Frame>, poses: map<Frame, Pose>)
  {
    forall c :: c in poses && c != root ==>
      (exists p :: Settled(conn, trans, poses, p, c)) || Pending(conn, trans, queue, c)
  }

  lemma ConsistentSkip(conn: map<Frame, seq<Frame>>, trans: map<Edge, Transform>, root: Frame,
                       queue: seq<Frame>, poses: map<Frame, Pose>)
    requires queue != [] && queue[0] !in conn
    requires Consistent(conn, trans, root, queue, poses)
    ensures Consistent(conn, trans, root, queue[1..], poses)
  {
    forall c | c in poses && c != root && Pending(conn, trans, queue, c)
      ensures Pending(conn, trans, queue[1..], c)
    {
      var p :| p in queue && p in conn && c in conn[p] && (p, c) in trans;
      assert p != queue[0];
      assert p in queue[1..];
    }
  }

  lemma ConsistentExpand(conn: map<Frame, seq<Frame>>, trans: map<Edge, Transform>, root: Frame,
                         queue: seq<Frame>, poses: map<Frame, Pose>, next: map<Frame, Pose>)
    requires queue != [] && queue[0] in conn && queue[0] !in conn[queue[0]]
    requires Expand(trans, queue[0], conn[queue[0]], poses) == Ok(next)
    requires Consistent(conn, trans, root, queue, poses)
    ensures Consistent(conn, trans, root, queue[1..] + conn[queue[0]], next)
  {
    var f, q := queue[0], queue[1..] + conn[queue[0]];
    var w := Written(trans, f, conn[f]);
    ExpandSpec(trans, f, conn[f], poses);
    forall c | c in next && c != root
      ensures (exists p :: Settled(conn, trans, next, p, c)) || Pending(conn, trans, q, c)
    {
      if c in w {
        assert Settled(conn, trans, next, f, c);
      } else if p :| Settled(conn, trans, poses, p, c) {
        if p in w {
          assert p in q;
        } else {
          assert Settled(conn, trans, next, p, c);
        }
      } else {
        var p :| p in queue && p in conn && c in conn[p] && (p, c) in trans;
        assert p in q;
      }
    }
  }

  /**
   * On success every frame but the root holds exactly the pose that one of
   * its transformed parents' final poses gives it: a frame whose pose is
   * overwritten is queued again, so its children are recomputed from the new
   * pose.
   */
  lemma {:induction false} PropagateConsistent(conn: map<Frame, seq<Frame>>, trans: map<Edge, Transform>,
                                               rank: map<Frame, nat>, root: Frame,
                                               queue: seq<Frame>, poses: map<Frame, Pose>)
    requires Closed(conn, rank)
    requires forall f :: f in queue ==> f in rank
    requires Consistent(conn, trans, root, queue, poses)
    ensures var r := Propagate(conn, trans, rank, queue, poses);
            r.Ok? ==> forall c :: c in r.value && c != root ==> exists p :: Settled(conn, trans, r.value, p, c)
    decreases QueueWeight(conn, rank, queue)
  {
    if queue == [] {
      forall c | c in poses && c != root ensures exists p :: Settled(conn, trans, poses, p, c) {
        assert !Pending(conn, trans, queue, c);
      }
    } else {
      QueueWeightStep(conn, rank, queue);
      var f := queue[0];
      if f !in conn {
        ConsistentSkip(conn, trans, root, queue, poses);
        PropagateConsistent(conn, trans, rank, root, queue[1..], poses);
      } else {
        NotOwnChild(conn, rank, f);
        var r := Expand(trans, f, conn[f], poses);
        if r.Ok? {
          ConsistentExpand(conn, trans, root, queue, poses, r.value);
          PropagateConsistent(conn, trans, rank, root, queue[1..] + conn[f], r.value);
        }
      }
    }
  }

  /** Consecutive frames of path are parent and listed child. */
  ghost predicate IsPath(conn: map<Frame, seq<Frame>>, path: seq<Frame>)
  {
    forall i :: 0 <= i < |path| - 1 ==> path[i] in conn && path[i + 1] in conn[path[i]]
  }

  /** k is reached from root by following listed edges, whether or not they have transforms. */
  ghost predicate Reachable(conn: map<Frame, seq<Frame>>, root: Frame, k: Frame)
  {
    exists path :: |path| > 0 && path[0] == root && path[|path| - 1] == k && IsPath(conn, path)
  }

  /** Every listed child of a frame in s is in s. */
  ghost predicate EdgeClosed(conn: map<Frame, seq<Frame>>, s: iset<Frame>)
  {
    forall f, c :: f in s && f in conn && c in conn[f] ==> c in s
  }

  /** The frames reachable from the root contain it and are closed under listed edges. */
  lemma ReachableClosed(conn: map<Frame, seq<Frame>>, root: Frame)
    ensures root in ReachableSet(conn, root)
    ensures EdgeClosed(conn, ReachableSet(conn, root))
  {
    assert IsPath(conn, [root]);
    forall f, c | f in ReachableSet(conn, root) && f in conn && c in conn[f]
      ensures c in ReachableSet(conn, root)
    {
      var path :| |path| > 0 && path[0] == root && path[|path| - 1] == f && IsPath(conn, path);
      var longer := path + [c];
      assert IsPath(conn, longer) by {
        forall i | 0 <= i < |longer| - 1
          ensures longer[i] in conn && longer[i + 1] in conn[longer[i]]
        {
          if i < |path| - 1 {
            assert longer[i] == path[i] && longer[i + 1] == path[i + 1];
          }
        }
      }
    }
  }

  ghost function ReachableSet(conn: map<Frame, seq<Frame>>, root: Frame): iset<Frame>
  {
    iset k | Reachable(conn, root, k)
  }

  /**
   * Propagation never leaves a set of frames closed under listed edges that
   * holds the queue and the posed frames: only children of expanded frames
   * are written, and only an expanded frame can lack its pose.
   */
  lemma {:induction false} PropagateWithin(conn: map<Frame, seq<Frame>>, trans: map<Edge, Transform>,
                                           rank: map<Frame, nat>, queue: seq<Frame>, poses: map<Frame, Pose>,
                                           s: iset<Frame>)
    requires Closed(conn, rank)
    requires forall f :: f in queue ==> f in rank
    requires EdgeClosed(conn, s)
    requires forall f :: f in queue ==> f in s
    requires forall k :: k in poses ==> k in s
    ensures var r := Propagate(conn, trans, rank, queue, poses);
            (r.Ok? ==> forall k :: k in r.value ==> k in s) &&
            (r.Err? ==> r.error.parent in s)
    decreases QueueWeight(conn, rank, queue)
  {
    if queue != [] {
      QueueWeightStep(conn, rank, queue);
      var f := queue[0];
      if f !in conn {
        PropagateWithin(conn, trans, rank, queue[1..], poses, s);
      } else {
        NotOwnChild(conn, rank, f);
        ExpandSpec(trans, f, conn[f], poses);
        var r := Expand(trans, f, conn[f], poses);
        if r.Ok? {
          var q := queue[1..] + conn[f];
          assert forall c :: c in conn[f] ==> c in s;
          assert forall k :: k in r.value ==> k in poses || k in Written(trans, f, conn[f]);
          PropagateWithin(conn, trans, rank, q, r.value, s);
        }
      }
    }
  }

  /**
   * The walk cannot fail when every queued frame has a pose and every listed
   * edge out of a ranked frame has a transform: each expansion then poses
   * every child before the child is queued.
   */
  lemma {:induction false} PropagateSucceeds(conn: map<Frame, seq<Frame>>, trans: map<Edge, Transform>,
                                             rank: map<Frame, nat>, queue: seq<Frame>, poses: map<Frame, Pose>)
    requires Closed(conn, rank)
    requires forall f :: f in queue ==> f in rank && f in poses
    requires forall f, c :: f in rank && f in conn && c in conn[f] ==> (f, c) in trans
    ensures Propagate(conn, trans, rank, queue, poses).Ok?
    decreases QueueWeight(conn, rank, queue)
  {
    if queue != [] {
      QueueWeightStep(conn, rank, queue);
      var f := queue[0];
      if f !in conn {
        PropagateSucceeds(conn, trans, rank, queue[1..], poses);
      } else {
        NotOwnChild(conn, rank, f);
        ExpandSpec(trans, f, conn[f], poses);
        var next := Expand(trans, f, conn[f], poses).value;
        assert forall c :: c in conn[f] ==> c in Written(trans, f, conn[f]);
        PropagateSucceeds(conn, trans, rank, queue[1..] + conn[f], next);
      }
    }
  }

  /** On success no frame loses its pose: the walk only adds and overwrites. */
  lemma {:induction false} PropagateGrows(conn: map<Frame, seq<Frame>>, trans: map<Edge, Transform>,
                                          rank: map<Frame, nat>, queue: seq<Frame>, poses: map<Frame, Pose>)
    requires Closed(conn, rank)
    requires forall f :: f in queue ==> f in rank
    ensures var r := Propagate(conn, trans, rank, queue, poses);
            r.Ok? ==> forall k :: k in poses ==> k in r.value
    decreases QueueWeight(conn, rank, queue)
  {
    if queue != [] {
      QueueWeightStep(conn, rank, queue);
      var f := queue[0];
      if f !in conn {
        PropagateGrows(conn, trans, rank, queue[1..], poses);
      } else {
        NotOwnChild(conn, rank, f);
        ExpandSpec(trans, f, conn[f], poses);
        var r := Expand(trans, f, conn[f], poses);
        if r.Ok? {
          PropagateGrows(conn, trans, rank, queue[1..] + conn[f], r.value);
        }
      }
    }
  }

  /**
   * Every frame on a listed path from a queued frame is dequeued in turn, so
   * on success the last frame of the path, when it has a child with a
   * transform, has a pose, and so has that child.
   */
  lemma {:induction false} PropagateReaches(conn: map<Frame, seq<Frame>>, trans: map<Edge, Transform>,
                                            rank: map<Frame, nat>, queue: seq<Frame>, poses: map<Frame, Pose>,
                                            path: seq<Frame>, c: Frame)
    requires Closed(conn, rank)
    requires forall f :: f in queue ==> f in rank
    requires |path| > 0 && path[0] in queue && IsPath(conn, path)
    ensures var r := Propagate(conn, trans, rank, queue, poses);
            var f := path[|path| - 1];
            r.Ok? && f in conn && c in conn[f] && (f, c) in trans ==> f in r.value && c in r.value
    decreases QueueWeight(conn, rank, queue)
  {
    QueueWeightStep(conn, rank, queue);
    var g := queue[0];
    var f := path[|path| - 1];
    if g !in conn {
      if path[0] != g {
        assert path[0] in queue[1..];
        PropagateReaches(conn, trans, rank, queue[1..], poses, path, c);
      }
      // Otherwise g starts the path and has no list, so the path is g alone and g lists no child.
    } else {
      NotOwnChild(conn, rank, g);
      ExpandSpec(trans, g, conn[g], poses);
      var r := Expand(trans, g, conn[g], poses);
      if r.Ok? {
        var q := queue[1..] + conn[g];
        if path[0] != g {
          assert path[0] in queue[1..];
          PropagateReaches(conn, trans, rank, q, r.value, path, c);
        } else if |path| == 1 {
          if c in conn[g] && (g, c) in trans {
            assert c in Written(trans, g, conn[g]);
            PropagateGrows(conn, trans, rank, q, r.value);
          }
        } else {
          var rest := path[1..];
          assert rest[0] in conn[g];
          assert IsPath(conn, rest) by {
            forall i | 0 <= i < |rest| - 1
              ensures rest[i] in conn && rest[i + 1] in conn[rest[i]]
            {
              assert rest[i] == path[i + 1] && rest[i + 1] == path[i + 2];
            }
          }
          PropagateReaches(conn, trans, rank, q, r.value, rest, c);
        }
      }
    }
  }

  /** f is listed by some frame of s through an edge without a transform. */
  ghost predicate QueuedUntransformed(conn: map<Frame, seq<Frame>>, trans: map<Edge, Transform>,
                                      s: iset<Frame>, f: Frame)
  {
    exists q :: q in s && q in conn && f in conn[q] && (q, f) !in trans
  }

  /**
   * A queued frame either has a pose or was queued through an edge without a
   * transform; so the frame whose pose is missing on failure is of the
   * second kind.
   */
  lemma {:induction false} PropagateFailsUntransformed(conn: map<Frame, seq<Frame>>, trans: map<Edge, Transform>,
                                                       rank: map<Frame, nat>, queue: seq<Frame>,
                                                       poses: map<Frame, Pose>, s: iset<Frame>)
    requires Closed(conn, rank)
    requires forall f :: f in queue ==> f in rank
    requires EdgeClosed(conn, s)
    requires forall f :: f in queue ==> f in s
    requires forall f :: f in queue ==> f in poses || QueuedUntransformed(conn, trans, s, f)
    ensures var r := Propagate(conn, trans, rank, queue, poses);
            r.Err? ==> QueuedUntransformed(conn, trans, s, r.error.parent)
    decreases QueueWeight(conn, rank, queue)
  {
    if queue != [] {
      QueueWeightStep(conn, rank, queue);
      var g := queue[0];
      if g !in conn {
        PropagateFailsUntransformed(conn, trans, rank, queue[1..], poses, s);
      } else {
        NotOwnChild(conn, rank, g);
        ExpandSpec(trans, g, conn[g], poses);
        var r := Expand(trans, g, conn[g], poses);
        if r.Ok? {
          var next := r.value;
          forall c | c in conn[g] ensures c in next || QueuedUntransformed(conn, trans, s, c) {
            if (g, c) in trans {
              assert c in Written(trans, g, conn[g]);
            } else {
              assert g in s && g in conn && c in conn[g] && (g, c) !in trans;
            }
          }
          PropagateFailsUntransformed(conn, trans, rank, queue[1..] + conn[g], next, s);
        }
      }
    }
  }

  /** A queue of frames with no children leaves the poses as they are. */
  lemma {:induction false} LeavesDrain(conn: map<Frame, seq<Frame>>, trans: map<Edge, Transform>,
                                       rank: map<Frame, nat>, queue: seq<Frame>, poses: map<Frame, Pose>)
    requires Closed(conn, rank)
    requires forall f :: f in queue ==> f in rank && (f in conn ==> conn[f] == [])
    ensures Propagate(conn, trans, rank, queue, poses) == Ok(poses)
    decreases |queue|
  {
    if queue != [] {
      var f := queue[0];
      if f in conn {
        assert Expand(trans, f, conn[f], poses) == Ok(poses);
        assert queue[1..] + conn[f] == queue[1..];
      }
      LeavesDrain(conn, trans, rank, queue[1..], poses);
    }
  }

  /**
   * Absolute poses of the frames the breadth-first loop writes: the root, and
   * each frame reached through an edge that has a transform.
   */
  method ComputeAbsolutePoses(conn: map<Frame, seq<Frame>>, trans: map<Edge, Transform>, root: Frame,
                              ghost rank: map<Frame, nat>)
    returns (r: Result<map<Frame, Pose>, PoseError>)
    requires Ranked(conn, root, rank)
    ensures r == Propagate(conn, trans, rank, [root], map[root := RootPose])
  {
    var poses := map[root := RootPose];
    var queue := [root];
    while queue != []
      invariant forall f :: f in queue ==> f in rank
      invariant Propagate(conn, trans, rank, queue, poses) == Propagate(conn, trans, rank, [root], map[root := RootPose])
      decreases QueueWeight(conn, rank, queue)
    {
      QueueWeightStep(conn, rank, queue);
      var parent := queue[0];
      queue := queue[1..];
      if parent !in conn {
        continue;
      }
      var children := conn[parent];
      ghost var start := poses;
      ghost var rest := queue;
      for j := 0 to |children|
        invariant queue == rest + children[..j]
        invariant Expand(trans, parent, children[j..], poses) == Expand(trans, parent, children, start)
      {
        var child := children[j];
        assert children[j..][1..] == children[j + 1..];
        assert children[..j + 1] == children[..j] + [child];
        if (parent, child) !in trans {
          queue := queue + [child];
          continue;
        }
        if parent !in poses {
          return Err(MissingParentPose(parent, child));
        }
        poses := poses[child := ChildPose(poses[parent], trans[(parent, child)])];
        queue := queue + [child];
      }
      assert children[..|children|] == children;
    }
    r := Ok(poses);
  }

  /**
   * What the loop returns from the root: on success the root keeps the
   * identity pose, every other posed frame is the child of a transform and
   * holds the pose one of its transformed parents' final poses gives it, and
   * every posed frame's transformed children are posed, and every posed frame
   * is reachable from the root along listed edges, and every reachable frame
   * with a transformed child is posed, as is that child; when every listed
   * edge has a transform the walk succeeds; on failure the reachable frame
   * without a pose is not the root, was listed by a reachable frame through
   * an edge without a transform, and the named edge is listed and has a
   * transform.
   */
  lemma AbsolutePosesSound(conn: map<Frame, seq<Frame>>, trans: map<Edge, Transform>, root: Frame,
                           rank: map<Frame, nat>)
    requires Ranked(conn, root, rank)
    ensures var r := Propagate(conn, trans, rank, [root], map[root := RootPose]);
            (r.Ok? ==>
              root in r.value && r.value[root] == RootPose &&
              (forall k :: k in r.value ==> k == root || k in Targets(trans)) &&
              (forall c :: c in r.value && c != root ==> exists p :: Settled(conn, trans, r.value, p, c)) &&
              (forall p :: p in r.value && p in conn ==> ChildrenPosed(conn, trans, r.value, p)) &&
              (forall k :: k in r.value ==> Reachable(conn, root, k))) &&
            (r.Err? ==>
              r.error.parent != root && r.error.parent in conn && Reachable(conn, root, r.error.parent) &&
              r.error.child in conn[r.error.parent] && (r.error.parent, r.error.child) in trans) &&
            ((forall f, c :: f in conn && c in conn[f] ==> (f, c) in trans) ==> r.Ok?) &&
            (r.Ok? ==> forall f, c :: Reachable(conn, root, f) && f in conn && c in conn[f] && (f, c) in trans ==>
                                      f in r.value && c in r.value) &&
            (r.Err? ==> exists q :: Reachable(conn, root, q) && q in conn &&
                                    r.error.parent in conn[q] && (q, r.error.parent) !in trans)
  {
    var start := map[root := RootPose];
    PropagateKeepsRoot(conn, trans, rank, root, [root], start);
    PropagateClosed(conn, trans, rank, [root], start);
    PropagateConsistent(conn, trans, rank, root, [root], start);
    ReachableClosed(conn, root);
    PropagateWithin(conn, trans, rank, [root], start, ReachableSet(conn, root));
    if forall f, c :: f in conn && c in conn[f] ==> (f, c) in trans {
      PropagateSucceeds(conn, trans, rank, [root], start);
    }
    var r := Propagate(conn, trans, rank, [root], start);
    forall f, c | r.Ok? && Reachable(conn, root, f) && f in conn && c in conn[f] && (f, c) in trans
      ensures f in r.value && c in r.value
    {
      var path :| |path| > 0 && path[0] == root && path[|path| - 1] == f && IsPath(conn, path);
      PropagateReaches(conn, trans, rank, [root], start, path, c);
    }
    PropagateFailsUntransformed(conn, trans, rank, [root], start, ReachableSet(conn, root));
  }

  /** The transform that moves one unit along `v` without rotating. */
  function Shift(v: Vec3): Transform
  {
    Transform(v, Identity)
  }

  /** A chain m -> b -> c composes the two transforms in order. */
  lemma ChainExample(m: Frame, b: Frame, c: Frame, t1: Transform, t2: Transform)
    requires m != b && b != c && m != c
    ensures var conn := map[m := [b], b := [c], c := []];
            var trans := map[(m, b) := t1, (b, c) := t2];
            var rank := map[m := 2, b := 1, c := 0];
            Propagate(conn, trans, rank, [m], map[m := RootPose])
              == Ok(map[m := RootPose, b := ChildPose(RootPose, t1), c := ChildPose(ChildPose(RootPose, t1), t2)])
  {
    var conn := map[m := [b], b := [c], c := []];
    var trans := map[(m, b) := t1, (b, c) := t2];
    var rank := map[m := 2, b := 1, c := 0];
    var pb := ChildPose(RootPose, t1);
    var pc := ChildPose(pb, t2);
    var p1 := map[m := RootPose, b := pb];
    var p2 := map[m := RootPose, b := pb, c := pc];
    assert Expand(trans, m, [b], map[m := RootPose]) == Ok(p1) by {
      assert [b][1..] == [];
    }
    assert Expand(trans, b, [c], p1) == Ok(p2) by {
      assert [c][1..] == [];
    }
    assert Closed(conn, rank);
    calc {
      Propagate(conn, trans, rank, [m], map[m := RootPose]);
      { assert [m][1..] + [b] == [b]; }
      Propagate(conn, trans, rank, [b], p1);
      { assert [b][1..] + [c] == [c]; }
      Propagate(conn, trans, rank, [c], p2);
      { assert [c][1..] + [] == []; }
      Propagate(conn, trans, rank, [], p2);
    }
  }

  /**
   * Diamond m -> a, m -> b, a -> d, b -> d: d is written twice and keeps the
   * pose computed through b, the later write.
   */
  lemma DiamondExample(m: Frame, a: Frame, b: Frame, d: Frame, ta: Transform, tb: Transform,
                       tad: Transform, tbd: Transform)
    requires m != a && m != b && m != d && a != b && a != d && b != d
    ensures var conn := map[m := [a, b], a := [d], b := [d], d := []];
            var trans := map[(m, a) := ta, (m, b) := tb, (a, d) := tad, (b, d) := tbd];
            var rank := map[m := 2, a := 1, b := 1, d := 0];
            var r := Propagate(conn, trans, rank, [m], map[m := RootPose]);
            r.Ok? && d in r.value && r.value[d] == ChildPose(ChildPose(RootPose, tb), tbd)
  {
    var conn := map[m := [a, b], a := [d], b := [d], d := []];
    var trans := map[(m, a) := ta, (m, b) := tb, (a, d) := tad, (b, d) := tbd];
    var rank := map[m := 2, a := 1, b := 1, d := 0];
    var pa, pb := ChildPose(RootPose, ta), ChildPose(RootPose, tb);
    var p1 := map[m := RootPose, a := pa, b := pb];
    var p2 := p1[d := ChildPose(pa, tad)];
    var p3 := p1[d := ChildPose(pb, tbd)];
    DiamondExpansions(m, a, b, d, ta, tb, tad, tbd);
    assert Closed(conn, rank);
    calc {
      Propagate(conn, trans, rank, [m], map[m := RootPose]);
      { assert [m][1..] + [a, b] == [a, b]; }
      Propagate(conn, trans, rank, [a, b], p1);
      { assert [a, b][1..] + [d] == [b, d]; }
      Propagate(conn, trans, rank, [b, d], p2);
      { DiamondTail(conn, trans, rank, b, d, p2, p3); }
      Ok(p3);
    }
  }

  lemma DiamondExpansions(m: Frame, a: Frame, b: Frame, d: Frame, ta: Transform, tb: Transform,
                          tad: Transform, tbd: Transform)
    requires m != a && m != b && m != d && a != b && a != d && b != d
    ensures var trans := map[(m, a) := ta, (m, b) := tb, (a, d) := tad, (b, d) := tbd];
            var pa, pb := ChildPose(RootPose, ta), ChildPose(RootPose, tb);
            var p1 := map[m := RootPose, a := pa, b := pb];
            Expand(trans, m, [a, b], map[m := RootPose]) == Ok(p1) &&
            Expand(trans, a, [d], p1) == Ok(p1[d := ChildPose(pa, tad)]) &&
            Expand(trans, b, [d], p1[d := ChildPose(pa, tad)]) == Ok(p1[d := ChildPose(pb, tbd)])
  {
    var trans := map[(m, a) := ta, (m, b) := tb, (a, d) := tad, (b, d) := tbd];
    var pa, pb := ChildPose(RootPose, ta), ChildPose(RootPose, tb);
    var p1 := map[m := RootPose, a := pa, b := pb];
    assert [a, b][1..] == [b];
    assert [b][1..] == [] && [d][1..] == [];
    assert Expand(trans, m, [b], map[m := RootPose, a := pa]) == Ok(p1);
    assert p1[d := ChildPose(pa, tad)][d := ChildPose(pb, tbd)] == p1[d := ChildPose(pb, tbd)];
  }

  lemma DiamondTail(conn: map<Frame, seq<Frame>>, trans: map<Edge, Transform>, rank: map<Frame, nat>,
                    b: Frame, d: Frame, p2: map<Frame, Pose>, p3: map<Frame, Pose>)
    requires Closed(conn, rank) && b in rank && d in rank
    requires b in conn && conn[b] == [d] && d in conn && conn[d] == []
    requires Expand(trans, b, [d], p2) == Ok(p3)
    ensures Propagate(conn, trans, rank, [b, d], p2) == Ok(p3)
  {
    calc {
      Propagate(conn, trans, rank, [b, d], p2);
      { assert [b, d][1..] + [d] == [d, d]; }
      Propagate(conn, trans, rank, [d, d], p3);
      { LeavesDrain(conn, trans, rank, [d, d], p3); }
      Ok(p3);
    }
  }

  /** An edge without a transform queues its child, which never gets a pose. */
  lemma MissingTransformExample(m: Frame, a: Frame)
    requires m != a
    ensures var conn := map[m := [a], a := []];
            var rank := map[m := 1, a := 0];
            Propagate(conn, map[], rank, [m], map[m := RootPose]) == Ok(map[m := RootPose])
  {
    var conn := map[m := [a], a := []];
    var rank := map[m := 1, a := 0];
    assert Closed(conn, rank);
    assert Expand(map[], m, [a], map[m := RootPose]) == Ok(map[m := RootPose]) by {
      assert [a][1..] == [];
    }
    calc {
      Propagate(conn, map[], rank, [m], map[m := RootPose]);
      { assert [m][1..] + [a] == [a]; }
      Propagate(conn, map[], rank, [a], map[m := RootPose]);
      { assert [a][1..] + [] == []; }
      Propagate(conn, map[], rank, [], map[m := RootPose]);
    }
  }

  /**
   * A frame reached only through an edge without a transform has no pose,
   * so expanding it toward a child that has a transform fails.
   */
  lemma MissingParentExample(m: Frame, a: Frame, x: Frame, t: Transform)
    requires m != a && a != x && m != x
    ensures var conn := map[m := [a], a := [x]];
            var rank := map[m := 2, a := 1, x := 0];
            Propagate(conn, map[(a, x) := t], rank, [m], map[m := RootPose]) == Err(MissingParentPose(a, x))
  {
    var conn := map[m := [a], a := [x]];
    var trans := map[(a, x) := t];
    var rank := map[m := 2, a := 1, x := 0];
    assert Closed(conn, rank);
    assert Expand(trans, m, [a], map[m := RootPose]) == Ok(map[m := RootPose]) by {
      assert [a][1..] == [];
    }
    assert Expand(trans, a, [x], map[m := RootPose]) == Err(MissingParentPose(a, x));
    calc {
      Propagate(conn, trans, rank, [m], map[m := RootPose]);
      { assert [m][1..] + [a] == [a]; }
      Propagate(conn, trans, rank, [a], map[m := RootPose]);
    }
  }

  /** Pure translations from an unrotated parent add up. */
  lemma ChildPoseOfShift(parent: Pose, v: Vec3)
    requires parent.orientation == Identity
    ensures ChildPose(parent, Shift(v)) == Pose(Add(parent.position, v), Identity)
  {
    RotateByIdentity(v);
    MultiplyIdentity(Identity);
  }
}
