/**
 * Folding the records of a transform-tree dump into the two lookups the pose
 * propagation reads: an adjacency map from each frame to its children, in
 * record order and with repeated edges kept, and a transform map keyed by the
 * (parent, child) pair, in which the first record for a pair wins.
 *
 * A record is what one textual block of the dump yields once matched:
 * parent and child names, the translation x, y, z and the rotation read in
 * the text's order x, y, z, w.
 */
module TfRecords {
  import opened Quaternion

  type Frame = string

  type Edge = (Frame, Frame)

  datatype TfRecord = TfRecord(parent: Frame, child: Frame,
                               tx: real, ty: real, tz: real,
                               rx: real, ry: real, rz: real, rw: real)

  /** A relative transform: the child's offset and orientation in its parent's frame. */
  datatype Transform = Transform(translation: Vec3, rotation: Quat)

  function EdgeOf(r: TfRecord): Edge
  {
    (r.parent, r.child)
  }

  /** The rotation is re-packed from the text's x, y, z, w into (w, x, y, z). */
  function ToTransform(r: TfRecord): Transform
  {
    Transform(Vec3(r.tx, r.ty, r.tz), Quat(r.rw, r.rx, r.ry, r.rz))
  }

  /** Every frame named by some record, as parent or as child. */
  ghost function Names(records: seq<TfRecord>): set<Frame>
  {
    (set r | r in records :: r.parent) + (set r | r in records :: r.child)
  }

  ghost function Parents(records: seq<TfRecord>): set<Frame>
  {
    set r | r in records :: r.parent
  }

  ghost function Edges(records: seq<TfRecord>): set<Edge>
  {
    set r | r in records :: EdgeOf(r)
  }

  /** The children of f, one per record whose parent is f, in record order. */
  function ChildrenOf(records: seq<TfRecord>, f: Frame): seq<Frame>
  {
    if records == [] then []
    else
      var last := records[|records| - 1];
      ChildrenOf(records[..|records| - 1], f) + (if last.parent == f then [last.child] else [])
  }

  /** Record i is the first record for its (parent, child) pair. */
  ghost predicate IsFirst(records: seq<TfRecord>, i: nat)
    requires i < |records|
  {
    forall j :: 0 <= j < i ==> EdgeOf(records[j]) != EdgeOf(records[i])
  }

  lemma SetsSnoc(records: seq<TfRecord>, r: TfRecord)
    ensures Parents(records + [r]) == Parents(records) + {r.parent}
    ensures Names(records + [r]) == Names(records) + {r.parent, r.child}
    ensures Edges(records + [r]) == Edges(records) + {EdgeOf(r)}
  {
  }

  lemma ChildrenOfSnoc(records: seq<TfRecord>, r: TfRecord, f: Frame)
    ensures ChildrenOf(records + [r], f)
         == ChildrenOf(records, f) + (if r.parent == f then [r.child] else [])
  {
    assert (records + [r])[..|records|] == records;
  }

  /** c is listed under f exactly when some record is the edge f -> c. */
  lemma {:induction false} ChildrenOfMembers(records: seq<TfRecord>, f: Frame, c: Frame)
    ensures c in ChildrenOf(records, f) <==> (f, c) in Edges(records)
  {
    if records != [] {
      var init, last := records[..|records| - 1], records[|records| - 1];
      assert records == init + [last];
      ChildrenOfMembers(init, f, c);
      assert Edges(records) == Edges(init) + {EdgeOf(last)};
    }
  }

  /** How many records are the edge f -> c. */
  function EdgeCount(records: seq<TfRecord>, f: Frame, c: Frame): nat
  {
    if records == [] then 0
    else EdgeCount(records[..|records| - 1], f, c) + (if EdgeOf(records[|records| - 1]) == (f, c) then 1 else 0)
  }

  /** Repeated edges are kept: c occurs under f once per record f -> c. */
  lemma {:induction false} ChildrenOfKeepsDuplicates(records: seq<TfRecord>, f: Frame, c: Frame)
    ensures multiset(ChildrenOf(records, f))[c] == EdgeCount(records, f, c)
  {
    if records != [] {
      ChildrenOfKeepsDuplicates(records[..|records| - 1], f, c);
    }
  }

  /** A frame that is never a parent has no children. */
  lemma {:induction false} ChildrenOfNonParent(records: seq<TfRecord>, f: Frame)
    requires f !in Parents(records)
    ensures ChildrenOf(records, f) == []
  {
    if records != [] {
      var init := records[..|records| - 1];
      assert Parents(init) <= Parents(records);
      ChildrenOfNonParent(init, f);
    }
  }

  /** Appending record r to its parent's list keeps the adjacency invariant. */
  lemma ConnectionsStep(prefix: seq<TfRecord>, r: TfRecord, before: map<Frame, seq<Frame>>)
    requires before.Keys == Parents(prefix)
    requires forall f :: f in before ==> before[f] == ChildrenOf(prefix, f)
    ensures var siblings := if r.parent in before then before[r.parent] else [];
            var after := before[r.parent := siblings + [r.child]];
            after.Keys == Parents(prefix + [r]) &&
            forall f :: f in after ==> after[f] == ChildrenOf(prefix + [r], f)
  {
    SetsSnoc(prefix, r);
    if r.parent !in before {
      ChildrenOfNonParent(prefix, r.parent);
    }
    forall f ensures ChildrenOf(prefix + [r], f)
                  == ChildrenOf(prefix, f) + (if r.parent == f then [r.child] else [])
    {
      ChildrenOfSnoc(prefix, r, f);
    }
  }

  /** Keeping the transform of record i only when its pair is new keeps first-wins. */
  lemma TransformsStep(records: seq<TfRecord>, i: nat, before: map<Edge, Transform>)
    requires i < |records|
    requires before.Keys == Edges(records[..i])
    requires forall j :: 0 <= j < i && IsFirst(records, j) ==>
               before[EdgeOf(records[j])] == ToTransform(records[j])
    ensures var r := records[i];
            var after := if EdgeOf(r) in before then before else before[EdgeOf(r) := ToTransform(r)];
            after.Keys == Edges(records[..i + 1]) &&
            forall j :: 0 <= j < i + 1 && IsFirst(records, j) ==>
              after[EdgeOf(records[j])] == ToTransform(records[j])
  {
    var r := records[i];
    assert records[..i + 1] == records[..i] + [r];
    SetsSnoc(records[..i], r);
    forall j | 0 <= j < i && IsFirst(records, j)
      ensures EdgeOf(records[j]) in before
    {
      assert records[j] in records[..i];
    }
  }

  /**
   * The record-folding loop: for each record, append the child to the
   * parent's list and keep the record's transform unless its pair already has
   * one; afterwards, give every frame seen a (possibly empty) list.
   */
  method FoldRecords(records: seq<TfRecord>)
    returns (connections: map<Frame, seq<Frame>>, transformations: map<Edge, Transform>)
    ensures connections.Keys == Names(records)
    ensures forall f :: f in connections ==> connections[f] == ChildrenOf(records, f)
    ensures transformations.Keys == Edges(records)
    ensures forall i :: 0 <= i < |records| && IsFirst(records, i) ==>
              transformations[EdgeOf(records[i])] == ToTransform(records[i])
  {
    connections, transformations := map[], map[];
    var allLinks: set<Frame> := {};
    for i := 0 to |records|
      invariant connections.Keys == Parents(records[..i])
      invariant forall f :: f in connections ==> connections[f] == ChildrenOf(records[..i], f)
      invariant allLinks == Names(records[..i])
      invariant transformations.Keys == Edges(records[..i])
      invariant forall j :: 0 <= j < i && IsFirst(records, j) ==>
                  transformations[EdgeOf(records[j])] == ToTransform(records[j])
    {
      var r := records[i];
      assert records[..i + 1] == records[..i] + [r];
      SetsSnoc(records[..i], r);
      ConnectionsStep(records[..i], r, connections);
      TransformsStep(records, i, transformations);
      var siblings := if r.parent in connections then connections[r.parent] else [];
      connections := connections[r.parent := siblings + [r.child]];
      allLinks := allLinks + {r.parent, r.child};
      if EdgeOf(r) !in transformations {
        transformations := transformations[EdgeOf(r) := ToTransform(r)];
      }
    }
    assert records[..|records|] == records;
    connections := AddLeafFrames(records, connections, allLinks);
  }

  /** Every frame seen but never a parent gets an empty list of children. */
  method AddLeafFrames(records: seq<TfRecord>, connections: map<Frame, seq<Frame>>, allLinks: set<Frame>)
    returns (filled: map<Frame, seq<Frame>>)
    requires connections.Keys == Parents(records)
    requires forall f :: f in connections ==> connections[f] == ChildrenOf(records, f)
    ensures filled.Keys == connections.Keys + allLinks
    ensures forall f :: f in filled ==> filled[f] == ChildrenOf(records, f)
  {
    filled := connections;
    var remaining := allLinks;
    while remaining != {}
      invariant remaining <= allLinks
      invariant filled.Keys == connections.Keys + (allLinks - remaining)
      invariant forall f :: f in filled ==> filled[f] == ChildrenOf(records, f)
      decreases remaining
    {
      var link :| link in remaining;
      if link !in filled {
        ChildrenOfNonParent(records, link);
        filled := filled[link := []];
      }
      remaining := remaining - {link};
    }
  }
}
