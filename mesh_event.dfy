/**
 * `mesh_event` (src/main.rs:88-110): the mesh handles of every primitive
 * reachable from a glTF node, the node's own first, then each child's in
 * declared order, depth first.
 */
module MeshTraversal {
  import opened Wrappers
  import opened Gltf

  /** The mesh handle of each primitive, in declaration order. */
  function PrimitiveMeshes(ps: seq<GltfPrimitive>): seq<MeshHandle>
  {
    seq(|ps|, i requires 0 <= i < |ps| => ps[i].mesh)
  }

  /**
   * The handles a node contributes by itself: none when it has no mesh or its
   * mesh handle does not resolve in `Assets<GltfMesh>`.
   */
  function OwnMeshes(node: GltfNode, assets: MeshAssets): seq<MeshHandle>
  {
    match node.mesh
    case None => []
    case Some(h) => if h in assets then PrimitiveMeshes(assets[h].primitives) else []
  }

  /** The value `mesh_event` returns for `node`. */
  function MeshEvent(node: GltfNode, assets: MeshAssets): seq<MeshHandle>
    decreases node
  {
    OwnMeshes(node, assets) + ChildrenMeshes(node.children, assets)
  }

  /** The results of `mesh_event` on each child, appended in order. */
  function ChildrenMeshes(children: seq<GltfNode>, assets: MeshAssets): seq<MeshHandle>
    decreases children
  {
    if children == [] then [] else MeshEvent(children[0], assets) + ChildrenMeshes(children[1..], assets)
  }

  /** Taking one more primitive adds its handle at the end. */
  lemma PrimitiveMeshesSnoc(ps: seq<GltfPrimitive>, i: nat)
    requires i < |ps|
    ensures PrimitiveMeshes(ps[..i + 1]) == PrimitiveMeshes(ps[..i]) + [ps[i].mesh]
  {
  }

  /*
   * An independent reference: the nodes of a subtree in depth-first pre-order,
   * and the concatenation of what each node contributes by itself.
   */

  /** The nodes of the subtree rooted at `node`, parent before children, children in declared order. */
  function PreOrder(node: GltfNode): (r: seq<GltfNode>)
    ensures |r| > 0 && r[0] == node
    decreases node
  {
    [node] + PreOrderAll(node.children)
  }

  /** The pre-order of each tree of a forest, one after the other. */
  function PreOrderAll(nodes: seq<GltfNode>): seq<GltfNode>
    decreases nodes
  {
    if nodes == [] then [] else PreOrder(nodes[0]) + PreOrderAll(nodes[1..])
  }

  /** The own handles of each node of a list, concatenated. */
  function OwnConcat(nodes: seq<GltfNode>, assets: MeshAssets): seq<MeshHandle>
  {
    if nodes == [] then [] else OwnMeshes(nodes[0], assets) + OwnConcat(nodes[1..], assets)
  }

  /** The number of primitives a node's own mesh resolves to. */
  function OwnPrimitiveCount(node: GltfNode, assets: MeshAssets): nat
  {
    match node.mesh
    case None => 0
    case Some(h) => if h in assets then |assets[h].primitives| else 0
  }

  /** The number of resolvable primitives in a subtree. */
  function PrimitiveCount(node: GltfNode, assets: MeshAssets): nat
    decreases node
  {
    OwnPrimitiveCount(node, assets) + ChildrenPrimitiveCount(node.children, assets)
  }

  /** The number of resolvable primitives in a forest. */
  function ChildrenPrimitiveCount(children: seq<GltfNode>, assets: MeshAssets): nat
    decreases children
  {
    if children == [] then 0
    else PrimitiveCount(children[0], assets) + ChildrenPrimitiveCount(children[1..], assets)
  }

  /** Appending child lists appends their results. */
  lemma {:induction false} ChildrenMeshesAppend(a: seq<GltfNode>, b: seq<GltfNode>, assets: MeshAssets)
    ensures ChildrenMeshes(a + b, assets) == ChildrenMeshes(a, assets) + ChildrenMeshes(b, assets)
    decreases a
  {
    if a == [] {
      assert a + b == b;
    } else {
      assert (a + b)[0] == a[0];
      assert (a + b)[1..] == a[1..] + b;
      ChildrenMeshesAppend(a[1..], b, assets);
    }
  }

  /** Traversing one more child appends that child's result. */
  lemma ChildrenMeshesSnoc(children: seq<GltfNode>, j: nat, assets: MeshAssets)
    requires j < |children|
    ensures ChildrenMeshes(children[..j + 1], assets) == ChildrenMeshes(children[..j], assets) + MeshEvent(children[j], assets)
  {
    assert children[..j + 1] == children[..j] + [children[j]];
    ChildrenMeshesAppend(children[..j], [children[j]], assets);
    assert [children[j]][1..] == [];
  }

  /**
   * Ordering law: the node's own primitive handles come first, in primitive
   * order, and the result of child `i` sits right after the results of
   * children `0 .. i-1`.
   */
  lemma MeshEventOrder(node: GltfNode, assets: MeshAssets, i: nat)
    requires i < |node.children|
    ensures var r := MeshEvent(node, assets);
            var own := OwnMeshes(node, assets);
            var off := |own| + |ChildrenMeshes(node.children[..i], assets)|;
            var ci := MeshEvent(node.children[i], assets);
            own <= r && off + |ci| <= |r| && r[off .. off + |ci|] == ci
  {
    var cs := node.children;
    var own := OwnMeshes(node, assets);
    var before := ChildrenMeshes(cs[..i], assets);
    var ci := MeshEvent(cs[i], assets);
    var after := ChildrenMeshes(cs[i + 1..], assets);
    assert cs == cs[..i + 1] + cs[i + 1..];
    ChildrenMeshesAppend(cs[..i + 1], cs[i + 1..], assets);
    ChildrenMeshesSnoc(cs, i, assets);
    assert MeshEvent(node, assets) == own + (before + ci + after);
    SliceOfConcat(own, before, ci, after);
  }

  /** The third of four joined sequences sits after the first two, and the first is a prefix. */
  lemma SliceOfConcat(a: seq<MeshHandle>, b: seq<MeshHandle>, c: seq<MeshHandle>, d: seq<MeshHandle>)
    ensures var s := a + (b + c + d);
            a <= s && |a| + |b| + |c| <= |s| && s[|a| + |b| .. |a| + |b| + |c|] == c
  {
    var s := a + (b + c + d);
    assert s[..|a|] == a;
    assert forall k :: 0 <= k < |c| ==> s[|a| + |b| + k] == c[k];
  }

  /** The node's own handles are the handles of its mesh's primitives, in order. */
  lemma MeshEventOwnPrimitives(node: GltfNode, assets: MeshAssets, h: GltfMeshHandle)
    requires node.mesh == Some(h) && h in assets
    ensures var ps := assets[h].primitives;
            |ps| <= |MeshEvent(node, assets)| &&
            forall k :: 0 <= k < |ps| ==> MeshEvent(node, assets)[k] == ps[k].mesh
  {
  }

  /**
   * A node without a mesh, or whose mesh does not resolve, contributes nothing
   * of its own, and its children are still traversed.
   */
  lemma MeshEventUnresolved(node: GltfNode, assets: MeshAssets)
    requires node.mesh.None? || node.mesh.value !in assets
    ensures MeshEvent(node, assets) == ChildrenMeshes(node.children, assets)
  {
  }

  /** A node with no mesh and no children yields nothing. */
  lemma MeshEventLeaf(node: GltfNode, assets: MeshAssets)
    requires node.mesh.None? && node.children == []
    ensures MeshEvent(node, assets) == []
  {
  }

  /** Length law: one handle per resolvable primitive in the subtree. */
  lemma {:induction false} MeshEventLength(node: GltfNode, assets: MeshAssets)
    ensures |MeshEvent(node, assets)| == PrimitiveCount(node, assets)
    decreases node
  {
    ChildrenMeshesLength(node.children, assets);
  }

  /** Length law for a forest. */
  lemma {:induction false} ChildrenMeshesLength(children: seq<GltfNode>, assets: MeshAssets)
    ensures |ChildrenMeshes(children, assets)| == ChildrenPrimitiveCount(children, assets)
    decreases children
  {
    if children != [] {
      MeshEventLength(children[0], assets);
      ChildrenMeshesLength(children[1..], assets);
    }
  }

  /** `OwnConcat` distributes over list concatenation. */
  lemma {:induction false} OwnConcatAppend(a: seq<GltfNode>, b: seq<GltfNode>, assets: MeshAssets)
    ensures OwnConcat(a + b, assets) == OwnConcat(a, assets) + OwnConcat(b, assets)
    decreases a
  {
    if a == [] {
      assert a + b == b;
    } else {
      assert (a + b)[0] == a[0];
      assert (a + b)[1..] == a[1..] + b;
      OwnConcatAppend(a[1..], b, assets);
    }
  }

  /** `mesh_event` is the concatenation of each node's own handles over the depth-first pre-order. */
  lemma {:induction false} MeshEventIsPreOrder(node: GltfNode, assets: MeshAssets)
    ensures MeshEvent(node, assets) == OwnConcat(PreOrder(node), assets)
    decreases node
  {
    ChildrenMeshesIsPreOrder(node.children, assets);
    OwnConcatAppend([node], PreOrderAll(node.children), assets);
    assert OwnConcat([node], assets) == OwnMeshes(node, assets) by {
      assert [node][1..] == [];
    }
  }

  /** The forest form of `MeshEventIsPreOrder`. */
  lemma {:induction false} ChildrenMeshesIsPreOrder(children: seq<GltfNode>, assets: MeshAssets)
    ensures ChildrenMeshes(children, assets) == OwnConcat(PreOrderAll(children), assets)
    decreases children
  {
    if children != [] {
      MeshEventIsPreOrder(children[0], assets);
      ChildrenMeshesIsPreOrder(children[1..], assets);
      OwnConcatAppend(PreOrder(children[0]), PreOrderAll(children[1..]), assets);
    }
  }

  /** A handle is in a concatenation exactly when some node of the list contributes it. */
  lemma {:induction false} OwnConcatMember(nodes: seq<GltfNode>, assets: MeshAssets, m: MeshHandle)
    ensures m in OwnConcat(nodes, assets) <==> exists k :: 0 <= k < |nodes| && m in OwnMeshes(nodes[k], assets)
    decreases nodes
  {
    if nodes != [] {
      OwnConcatMember(nodes[1..], assets, m);
      if m in OwnConcat(nodes[1..], assets) {
        var k :| 0 <= k < |nodes[1..]| && m in OwnMeshes(nodes[1..][k], assets);
        assert m in OwnMeshes(nodes[k + 1], assets);
      }
      if exists k :: 0 <= k < |nodes| && m in OwnMeshes(nodes[k], assets) {
        var k :| 0 <= k < |nodes| && m in OwnMeshes(nodes[k], assets);
        if k > 0 {
          assert nodes[1..][k - 1] == nodes[k];
        }
      }
    }
  }

  /** A handle is returned exactly when some node of the subtree owns it. */
  lemma MeshEventMember(node: GltfNode, assets: MeshAssets, m: MeshHandle)
    ensures m in MeshEvent(node, assets) <==>
            exists k :: 0 <= k < |PreOrder(node)| && m in OwnMeshes(PreOrder(node)[k], assets)
  {
    MeshEventIsPreOrder(node, assets);
    OwnConcatMember(PreOrder(node), assets, m);
  }

  /** The results of the children from index `j` on: what the append loop still has to add. */
  function ChildrenFrom(children: seq<GltfNode>, j: nat, assets: MeshAssets): seq<MeshHandle>
    decreases |children| - j
  {
    if j >= |children| then [] else MeshEvent(children[j], assets) + ChildrenFrom(children, j + 1, assets)
  }

  /** The index-based form agrees with `ChildrenMeshes` on the remaining children. */
  lemma {:induction false} ChildrenFromIsChildrenMeshes(children: seq<GltfNode>, j: nat, assets: MeshAssets)
    requires j <= |children|
    ensures ChildrenFrom(children, j, assets) == ChildrenMeshes(children[j..], assets)
    decreases |children| - j
  {
    if j < |children| {
      assert children[j..][1..] == children[j + 1..];
      ChildrenFromIsChildrenMeshes(children, j + 1, assets);
    } else {
      assert children[j..] == [];
    }
  }

  /** The first loop of `mesh_event` (lines 93-103): push the handle of each primitive of the node's own mesh. */
  method CollectOwnMeshes(node: GltfNode, assets: MeshAssets) returns (ms: seq<MeshHandle>)
    ensures ms == OwnMeshes(node, assets)
  {
    ms := [];
    if node.mesh.Some? && node.mesh.value in assets {
      var primitives := assets[node.mesh.value].primitives;
      var i := 0;
      while i < |primitives|
        invariant 0 <= i <= |primitives|
        invariant ms == PrimitiveMeshes(primitives[..i])
      {
        PrimitiveMeshesSnoc(primitives, i);
        ms := ms + [primitives[i].mesh];
        i := i + 1;
      }
      assert primitives[..i] == primitives;
    }
  }

  /**
   * `mesh_event` as written: the node's own handles, then the second loop
   * (lines 105-107), which appends each child's recursive result.
   */
  method CollectMeshes(node: GltfNode, assets: MeshAssets) returns (ms: seq<MeshHandle>)
    ensures ms == MeshEvent(node, assets)
    decreases node
  {
    ms := CollectOwnMeshes(node, assets);
    var children := node.children;
    ChildrenFromIsChildrenMeshes(children, 0, assets);
    assert children[0..] == children;
    var j := 0;
    while j < |children|
      invariant 0 <= j <= |children|
      invariant ms + ChildrenFrom(children, j, assets) == MeshEvent(node, assets)
    {
      var x := CollectMeshes(children[j], assets);
      ghost var rest := ChildrenFrom(children, j + 1, assets);
      assert ms + (x + rest) == (ms + x) + rest;
      ms := ms + x;
      j := j + 1;
    }
  }
}
