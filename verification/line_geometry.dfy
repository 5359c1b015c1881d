/**
 * The LineGeometry class (src/LineGeometry.js:18-142): a skinned tube
 * through a bone hierarchy. The constructor merges the caller's options over
 * the defaults and hands them to `_createGeometry`, whose queue-driven loop
 * is modelled step by step and proved to visit the bones in breadth-first
 * order and to produce exactly `TubeMesh.Build` of that order.
 */
module Geometry {
  import opened Wrappers
  import opened Skeleton
  import opened TubeMesh

  ghost predicate QueueLinked(q: seq<Node>)
  {
    forall k :: 0 <= k < |q| ==> Linked(q[k])
  }

  ghost predicate ParentsKnown(q: seq<Node>, known: set<NodeId>)
  {
    forall k :: 0 <= k < |q| ==> q[k].parent.Some? && q[k].parent.value in known
  }

  ghost predicate Visiting(root: Node, bones: seq<Node>, nodes: seq<Node>, boneIndex: map<NodeId, nat>)
  {
    && bones + BfsFrom(nodes) == Bfs(root)
    && (bones == [] ==> nodes == [root])
    && QueueLinked(nodes)
    && (bones != [] ==> ParentsKnown(nodes, boneIndex.Keys))
    && (forall id :: id in boneIndex ==> boneIndex[id] < |bones| && bones[boneIndex[id]].id == id)
    && ParentsFirst(bones)
  }

  /** The queue after one visit: still linked, and every queued node's parent is recorded. */
  lemma QueueStep(q: seq<Node>, boneIndex: map<NodeId, nat>, first: bool, v: nat)
    requires q != [] && QueueLinked(q) && (!first ==> ParentsKnown(q, boneIndex.Keys)) && (first ==> |q| == 1)
    ensures QueueLinked(q[1..] + BoneChildren(q[0]))
    ensures ParentsKnown(q[1..] + BoneChildren(q[0]), boneIndex[q[0].id := v].Keys)
  {
    var cs := BoneChildren(q[0]);
    var next := q[1..] + cs;
    var known := boneIndex[q[0].id := v].Keys;
    assert known == boneIndex.Keys + {q[0].id};
    assert Linked(q[0]);
    forall k | 0 <= k < |next| ensures Linked(next[k]) && next[k].parent.Some? && next[k].parent.value in known {
      if k < |q| - 1 {
        assert next[k] == q[k + 1];
      } else {
        assert next[k] == cs[k - (|q| - 1)];
        assert next[k] in cs;
      }
    }
  }

  /** Dequeuing the head of the queue moves the next node of the walk onto the visited bones. */
  lemma OrderStep(root: Node, bones: seq<Node>, nodes: seq<Node>)
    requires nodes != [] && bones + BfsFrom(nodes) == Bfs(root)
    ensures (bones + [nodes[0]]) + BfsFrom(nodes[1..] + BoneChildren(nodes[0])) == Bfs(root)
  {
    var node := nodes[0];
    var next := nodes[1..] + BoneChildren(node);
    assert BfsFrom(nodes) == [node] + BfsFrom(next);
  }

  /**
   * A prefix of a walk with distinct ids has distinct ids, and its last
   * node is the walk's first only when the prefix has length one.
   */
  lemma PrefixIdsDistinct(p: seq<Node>, s: seq<Node>, t: seq<Node>)
    requires p + s == t && IdsDistinct(t) && p != []
    ensures IdsDistinct(p)
    ensures |p| == 1 <==> p[|p| - 1].id == t[0].id
  {
    forall i, k | 0 <= i < k < |p| ensures p[i].id != p[k].id {
      assert p[i] == t[i] && p[k] == t[k];
    }
    if |p| > 1 {
      assert p[0].id != p[|p| - 1].id;
    }
  }

  /** Recording the next bone keeps the bone-index map exact, and the parent's entry is its ParentSlot. */
  lemma IndexStep(bones: seq<Node>, node: Node, boneIndex: map<NodeId, nat>)
    requires IdsDistinct(bones + [node])
    requires forall id :: id in boneIndex ==> boneIndex[id] < |bones| && bones[boneIndex[id]].id == id
    ensures var bones', index' := bones + [node], boneIndex[node.id := |bones|];
            forall id :: id in index' ==> index'[id] < |bones'| && bones'[index'[id]].id == id
    ensures node.parent.Some? && node.parent.value in boneIndex ==>
              ParentSlot(bones, node) == boneIndex[node.parent.value] < |bones|
  {
    assert IdsDistinct(bones) by {
      forall i, k | 0 <= i < k < |bones| ensures bones[i].id != bones[k].id {
        assert bones[i] == (bones + [node])[i] && bones[k] == (bones + [node])[k];
      }
    }
    if node.parent.Some? && node.parent.value in boneIndex {
      IndexOfIdDistinct(bones, boneIndex[node.parent.value]);
    }
  }

  /** The parent of a queued node, once anything is visited, is a recorded bone. */
  lemma HeadParentKnown(nodes: seq<Node>, known: set<NodeId>)
    requires nodes != [] && ParentsKnown(nodes, known)
    ensures nodes[0].parent.Some? && nodes[0].parent.value in known
  {
  }

  lemma VisitStep(root: Node, bones: seq<Node>, nodes: seq<Node>, boneIndex: map<NodeId, nat>)
    requires IdsDistinct(Bfs(root))
    requires Visiting(root, bones, nodes, boneIndex) && nodes != []
    ensures var node := nodes[0];
            Visiting(root, bones + [node], nodes[1..] + BoneChildren(node), boneIndex[node.id := |bones|])
  {
    var node := nodes[0];
    QueueStep(nodes, boneIndex, bones == [], |bones|);
    OrderStep(root, bones, nodes);
    PrefixIdsDistinct(bones + [node], BfsFrom(nodes[1..] + BoneChildren(node)), Bfs(root));
    IndexStep(bones, node, boneIndex);
    if bones != [] {
      HeadParentKnown(nodes, boneIndex.Keys);
    }
    ParentsFirstAppend(bones, node);
  }

  /** The node dequeued is the root exactly on the first visit; on every later one its parent is a recorded bone. */
  lemma VisitHead(root: Node, bones: seq<Node>, nodes: seq<Node>, boneIndex: map<NodeId, nat>)
    requires IdsDistinct(Bfs(root))
    requires Visiting(root, bones, nodes, boneIndex) && nodes != []
    ensures bones == [] <==> nodes[0].id == root.id
    ensures bones != [] ==> nodes[0].parent.Some? && nodes[0].parent.value in boneIndex
                            && ParentSlot(bones, nodes[0]) == boneIndex[nodes[0].parent.value]
  {
    var node := nodes[0];
    OrderStep(root, bones, nodes);
    PrefixIdsDistinct(bones + [node], BfsFrom(nodes[1..] + BoneChildren(node)), Bfs(root));
    IndexStep(bones, node, boneIndex);
    if bones != [] {
      HeadParentKnown(nodes, boneIndex.Keys);
    }
  }

  /** One visit turns the mesh built from the bones so far into the mesh built from them and the new bone. */
  lemma MeshStep(before: seq<Node>, node: Node, start: Mesh, ringDone: Mesh, finished: Mesh, parentBone: nat,
                 config: Config, place: Placement)
    requires start == Build(before, config, place)
    requires ringDone == EmitRing(start, |before|, node, config.radialSegments, config, place)
    requires before == [] ==> finished == ringDone
    requires before != [] ==> ParentSlot(before, node) == parentBone
                              && finished == Stitch(ringDone, |before|, parentBone, config.radialSegments, config.radialSegments)
    ensures finished == Build(before + [node], config, place)
  {
    BuildAppend(before, node, config, place);
  }

  /** `ring` holds the vertex numbers of the ring of bone `boneIndex`, slot by slot. */
  ghost predicate RingOf(ring: seq<int>, boneIndex: nat, radialSegments: nat)
  {
    |ring| == radialSegments && forall x :: 0 <= x < radialSegments ==> ring[x] == Slot(boneIndex, x, radialSegments)
  }

  /** Both maps have the same keys, and each recorded ring holds the vertex numbers of its bone's ring. */
  ghost predicate RingsKnown(rings: map<NodeId, seq<int>>, boneIndex: map<NodeId, nat>, radialSegments: nat)
  {
    rings.Keys == boneIndex.Keys && forall id :: id in rings ==> RingOf(rings[id], boneIndex[id], radialSegments)
  }

  lemma RingsLookup(rings: map<NodeId, seq<int>>, boneIndex: map<NodeId, nat>, radialSegments: nat, id: NodeId)
    requires RingsKnown(rings, boneIndex, radialSegments) && id in boneIndex
    ensures id in rings && RingOf(rings[id], boneIndex[id], radialSegments)
  {
  }

  lemma RingsStep(rings: map<NodeId, seq<int>>, boneIndex: map<NodeId, nat>, radialSegments: nat,
                  id: NodeId, ring: seq<int>, b: nat)
    requires RingsKnown(rings, boneIndex, radialSegments) && RingOf(ring, b, radialSegments)
    ensures RingsKnown(rings[id := ring], boneIndex[id := b], radialSegments)
  {
  }

  class LineGeometry {
    /** The bones in the order they were visited; bone index k is `bones[k]`. */
    var bones: seq<Node>
    /** The index and the five vertex attributes handed to three.js. */
    var geometry: Mesh

    constructor (root: Node, options: Options, place: Placement)
      requires WellFormed(root)
      ensures bones == Bfs(root)
      ensures geometry == Build(Bfs(root), WithDefaults(options), place)
    {
      var config := WithDefaults(options);
      var visited, mesh := CreateGeometry(root, config, place);
      bones := visited;
      geometry := mesh;
    }

    /**
     * `_createGeometry`: drain a FIFO queue that starts as [root]; each
     * dequeued node enqueues its bone children, becomes the next bone, gets
     * a ring of `radialSegments` vertices, and, unless it is the root, is
     * stitched to the ring of its parent.
     */
    static method CreateGeometry(root: Node, config: Config, place: Placement) returns (bones: seq<Node>, mesh: Mesh)
      requires WellFormed(root)
      ensures bones == Bfs(root)
      ensures ParentsFirst(bones)
      ensures mesh == Build(bones, config, place)
    {
      var radialSegments := config.radialSegments;
      BfsIdsDistinct(root);

      // Vertex numbers of each visited node's ring, and each visited node's bone index, by node id.
      var nodeToVertexIndices: map<NodeId, seq<int>> := map[];
      var nodeToBoneIndex: map<NodeId, nat> := map[];

      var vertexCount := 0;
      var nodes := [root];
      mesh := EMPTY;
      bones := [];

      while nodes != []
        invariant Visiting(root, bones, nodes, nodeToBoneIndex)
        invariant RingsKnown(nodeToVertexIndices, nodeToBoneIndex, radialSegments)
        invariant vertexCount == RingStart(|bones|, radialSegments)
        invariant mesh == Build(bones, config, place)
        decreases |Forest(nodes)|
      {
        ForestStep(nodes);
        VisitStep(root, bones, nodes, nodeToBoneIndex);
        VisitHead(root, bones, nodes, nodeToBoneIndex);
        ghost var before := bones;
        var node := nodes[0];
        nodes := nodes[1..];
        nodes := EnqueueBones(nodes, node);

        bones := bones + [node];
        var boneIndex := |bones| - 1;
        mesh, vertexCount, nodeToVertexIndices, nodeToBoneIndex :=
          AddBone(root, node, before, boneIndex, mesh, vertexCount, nodeToVertexIndices, nodeToBoneIndex, config, place);
      }
    }

    /**
     * The rest of one visit, after `node` became bone number `boneIndex`:
     * record its ring and bone index, push its ring of vertices, and, unless
     * it is the root, stitch that ring to its parent's.
     */
    static method AddBone(root: Node, node: Node, ghost before: seq<Node>, boneIndex: nat, mesh: Mesh, vertexCount: nat,
                          nodeToVertexIndices: map<NodeId, seq<int>>, nodeToBoneIndex: map<NodeId, nat>,
                          config: Config, place: Placement)
      returns (mesh': Mesh, vertexCount': nat, nodeToVertexIndices': map<NodeId, seq<int>>, nodeToBoneIndex': map<NodeId, nat>)
      requires boneIndex == |before|
      requires before == [] <==> node.id == root.id
      requires before != [] ==> node.parent.Some? && node.parent.value in nodeToBoneIndex
                                && ParentSlot(before, node) == nodeToBoneIndex[node.parent.value]
      requires RingsKnown(nodeToVertexIndices, nodeToBoneIndex, config.radialSegments)
      requires vertexCount == RingStart(boneIndex, config.radialSegments)
      requires mesh == Build(before, config, place)
      ensures RingsKnown(nodeToVertexIndices', nodeToBoneIndex', config.radialSegments)
      ensures nodeToBoneIndex' == nodeToBoneIndex[node.id := boneIndex]
      ensures vertexCount' == RingStart(boneIndex + 1, config.radialSegments)
      ensures mesh' == Build(before + [node], config, place)
    {
      var radialSegments := config.radialSegments;
      var nodeIndices;
      mesh', nodeIndices, vertexCount' := PushRing(mesh, vertexCount, boneIndex, node, config, place);
      ghost var ringDone := mesh';
      ghost var parentBone := 0;
      if node.id != root.id {
        RingsLookup(nodeToVertexIndices, nodeToBoneIndex, radialSegments, node.parent.value);
        var parentIndices := nodeToVertexIndices[node.parent.value];
        parentBone := nodeToBoneIndex[node.parent.value];
        mesh' := StitchRing(mesh', nodeIndices, parentIndices, boneIndex, parentBone, radialSegments);
      }
      MeshStep(before, node, mesh, ringDone, mesh', parentBone, config, place);
      RingsStep(nodeToVertexIndices, nodeToBoneIndex, radialSegments, node.id, nodeIndices, boneIndex);
      nodeToVertexIndices' := nodeToVertexIndices[node.id := nodeIndices];
      nodeToBoneIndex' := nodeToBoneIndex[node.id := boneIndex];
    }

    /**
     * The vertex loop of one visit: slot i of the ring becomes vertex
     * `vertexCount + i`, with its position, colour, texture coordinates and
     * skinning, and its vertex number is recorded in `nodeIndices[i]`.
     */
    static method PushRing(start: Mesh, firstVertex: nat, boneIndex: nat, node: Node, config: Config, place: Placement)
      returns (mesh: Mesh, nodeIndices: seq<int>, vertexCount: nat)
      requires firstVertex == RingStart(boneIndex, config.radialSegments)
      ensures mesh == EmitRing(start, boneIndex, node, config.radialSegments, config, place)
      ensures RingOf(nodeIndices, boneIndex, config.radialSegments)
      ensures vertexCount == firstVertex + config.radialSegments
    {
      var radialSegments := config.radialSegments;
      var ring := new int[radialSegments];
      mesh := start;
      vertexCount := firstVertex;
      for i := 0 to radialSegments
        invariant vertexCount == Slot(boneIndex, i, radialSegments)
        invariant mesh == EmitRing(start, boneIndex, node, i, config, place)
        invariant forall x :: 0 <= x < i ==> ring[x] == Slot(boneIndex, x, radialSegments)
      {
        var index := vertexCount;
        vertexCount := vertexCount + 1;
        var p := place(node, Radius(node, config), i, radialSegments);
        var vertex := Vertex(p.position, RingColor(node, config), (p.u, 1.0), (boneIndex, 0, 0, 0), (1.0, 0.0, 0.0, 0.0));
        ring[i] := index;
        RingAppend(boneIndex, node, i, config, place);
        AppendAssoc(start.vertices, Ring(boneIndex, node, i, config, place), [vertex]);
        mesh := mesh.(vertices := mesh.vertices + [vertex]);
      }
      nodeIndices := ring[..];
    }

    /**
     * The stitching loop of one visit: for each slot x, with
     * next = (x + 1) % radialSegments, push the triangles (a, d, b) and
     * (d, c, b), where a, d are slots x, next of this ring and b, c those of
     * the parent's ring.
     */
    static method StitchRing(start: Mesh, nodeIndices: seq<int>, parentIndices: seq<int>,
                             ghost boneIndex: nat, ghost parentBone: nat, radialSegments: nat)
      returns (mesh: Mesh)
      requires RingOf(nodeIndices, boneIndex, radialSegments) && RingOf(parentIndices, parentBone, radialSegments)
      ensures mesh == Stitch(start, boneIndex, parentBone, radialSegments, radialSegments)
    {
      mesh := start;
      for x := 0 to radialSegments
        invariant mesh == Stitch(start, boneIndex, parentBone, x, radialSegments)
      {
        var next := (x + 1) % radialSegments;
        NextSlotIsMod(x, radialSegments);
        var a := nodeIndices[x];
        var b := parentIndices[x];
        var c := parentIndices[next];
        var d := nodeIndices[next];
        AppendAssoc(start.indices, Quads(boneIndex, parentBone, x, radialSegments), [a, d, b] + [d, c, b]);
        AppendAssoc(mesh.indices, [a, d, b], [d, c, b]);
        mesh := mesh.(indices := mesh.indices + [a, d, b]);
        mesh := mesh.(indices := mesh.indices + [d, c, b]);
      }
    }

    /** The child loop of one visit: push every child flagged `isBone`, in order. */
    static method EnqueueBones(queue: seq<Node>, node: Node) returns (nodes: seq<Node>)
      ensures nodes == queue + BoneChildren(node)
    {
      nodes := queue;
      for j := 0 to |node.children|
        invariant nodes == queue + BonesOf(node.children[..j])
      {
        var child := node.children[j];
        ghost var front := node.children[..j];
        assert node.children[..j + 1] == front + [child];
        BonesOfAppend(front, child);
        if child.isBone {
          AppendAssoc(queue, BonesOf(front), [child]);
          nodes := nodes + [child];
        }
      }
      assert node.children[..|node.children|] == node.children;
    }
  }
}
