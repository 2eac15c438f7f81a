/**
 * The parts of Bevy's loaded glTF assets that the collider core reads
 * (src/main.rs:2, 6-10). Handles are opaque identities, compared by equality only.
 */
module Gltf {
  import opened Wrappers

  /** `Handle<Mesh>`: a renderable mesh asset, one per glTF primitive. */
  type MeshHandle = nat
  /** `Handle<GltfMesh>`: a glTF mesh, i.e. a list of primitives. */
  type GltfMeshHandle = nat
  /** `Handle<GltfNode>`. */
  type GltfNodeHandle = nat
  /** `Handle<Gltf>`: a whole loaded glTF file. */
  type GltfHandle = nat
  /** `Handle<Scene>`: one of the scenes of a glTF file. */
  type SceneHandle = nat

  /** A glTF primitive; only the handle of its mesh is read (src/main.rs:99). */
  datatype GltfPrimitive = GltfPrimitive(mesh: MeshHandle)

  /** A glTF mesh: its primitives in declaration order. */
  datatype GltfMesh = GltfMesh(primitives: seq<GltfPrimitive>)

  /**
   * A glTF node. Children are owned values (Bevy's `GltfNode::children` is a
   * `Vec<GltfNode>`), so the tree is finite and acyclic by construction.
   * The node's transform is never read by the core and is not modelled.
   */
  datatype GltfNode = GltfNode(children: seq<GltfNode>, mesh: Option<GltfMeshHandle>)

  /** A loaded glTF file: its scenes and its node list (every node of the file, children included). */
  datatype Gltf = Gltf(scenes: seq<SceneHandle>, nodes: seq<GltfNodeHandle>)

  /** `Assets<Gltf>`, `Assets<GltfNode>`, `Assets<GltfMesh>` as read-only lookup tables. */
  type GltfAssets = map<GltfHandle, Gltf>
  type NodeAssets = map<GltfNodeHandle, GltfNode>
  type MeshAssets = map<GltfMeshHandle, GltfMesh>
}
