# bevy_gltf_collider core, modelled in Dafny

This project models the collider logic of `bevy_gltf_collider`, a Bevy app
that loads a glTF scene and gives Rapier colliders to the nodes whose glTF
"extras" ask for one. Three systems make up that logic. All three live in `src/main.rs`:

- `mesh_event` walks a glTF node tree. It collects the `Handle<Mesh>` of
  every primitive of the node's own mesh, then appends each child's result,
  so the output is in depth-first pre-order (module `MeshTraversal`).
- `process_gltf` reacts to `AssetEvent<Gltf>`. Only `Created` events matter.
  Each one overwrites the `LoadedMeshes` resource. When the created handle is
  the one held in `GltfMeshes`, the system also spawns the file's first scene
  and sets `LoadedMeshes` to the meshes of every resolvable node in the
  file's node list (every node of the file, children included).
  Any other created handle sets it to an empty list (module `SceneLoading`,
  class `World`).
- `control_extras` looks at each newly added mesh entity whose handle is in
  `LoadedMeshes` and whose mesh yields a collider. It gives that collider to
  the entity's **parent** if the parent's extras are JSON whose `"collider"`
  field is the string `"true"`. The collider is solid (`Sensor(false)`), has
  CCD enabled, uses the default active collision types and reports collision
  events. The extras of such a parent are the only ones parsed, and if they
  are not JSON the system panics (module
  `ColliderActivation`).

Supporting modules: `Wrappers` (Option, Result); `Gltf` (handles and
the glTF asset records as read-only maps); `Json` (the part of
`serde_json::Value` that is used, with `v[key]` returning `Null` for a
non-object or a missing key, and `as_str`).

Each imperative system is a method proved equal to a specification function:
`CollectMeshes` equals `MeshEvent`, `World.ProcessGltf` equals the fold `Run`,
and `ControlExtras` equals `ControlExtrasSpec`. The properties are lemmas
about those functions. The collider constructor `Collider::bevy_mesh` and the
parser `serde_json::from_str` are uninterpreted function parameters (`Env.build`,
`Env.parse`). Bevy queries are sequences of rows, and assets are maps.

Behaviour a reader might not expect, modelled as the code has it:

- There is no one-shot load gate. `process_gltf` only compares handles
  (src/main.rs:71), so every `Created` event for the expected handle spawns
  the scene again (`RepeatedCreatedSpawnsAgain`, `RunSpawnCount`).
- A `Created` event for any other glTF file still replaces `LoadedMeshes`,
  with an empty list, because line 83 sits outside the `if` of line 71
  (`StepMismatchedCreated`, `RunLastCreatedWins`).
- Activation requires the JSON string `"true"`. A JSON boolean `true` does
  not activate (`ColliderNotRequested`).
- The extras read are those of the mesh entity's parent. The collider and
  the flags go to that parent, never to the mesh entity (`ControlExtrasSound`).
  No node transform is read or propagated.

## Model

| member | source | states |
|---|---|---|
| `MeshTraversal.MeshEventOrder` | src/main.rs:95-107 | the node's own handles are a prefix of the result, and child `i`'s whole result sits right after the own handles and the results of children `0..i-1` (declared child order) |
| `MeshTraversal.MeshEventOwnPrimitives` | src/main.rs:95-101 | when the node's mesh resolves, the first handles of the result are its primitives' mesh handles, one per primitive, in primitive order |
| `MeshTraversal.MeshEventUnresolved` | src/main.rs:95-107 | a node without a mesh, or whose mesh handle is absent from `Assets<GltfMesh>`, contributes nothing of its own, and its result is exactly its children's results |
| `MeshTraversal.MeshEventLeaf` | src/main.rs:93-109 | a node with no mesh and no children yields the empty sequence |
| `MeshTraversal.MeshEventLength` | src/main.rs:93-109 | the result has one handle per resolvable primitive in the subtree: the own primitive count plus the children's counts |
| `MeshTraversal.ChildrenMeshesLength` | src/main.rs:105-107 | the children's combined result has one handle per resolvable primitive in the forest |
| `MeshTraversal.ChildrenMeshesAppend` | src/main.rs:105-107 | traversing two child lists one after the other gives the two results appended |
| `MeshTraversal.MeshEventIsPreOrder` | src/main.rs:93-109 | the result equals the concatenation, over the subtree's nodes in depth-first pre-order, of each node's own handles |
| `MeshTraversal.ChildrenMeshesIsPreOrder` | src/main.rs:105-107 | the children's combined result equals the concatenation of own handles over the forest's pre-order |
| `MeshTraversal.OwnConcatAppend` | src/main.rs:93-109 | concatenating own handles distributes over joining node lists |
| `MeshTraversal.OwnConcatMember` | src/main.rs:93-109 | a handle is in the concatenation iff some listed node contributes it itself |
| `MeshTraversal.MeshEventMember` | src/main.rs:93-109 | a handle is returned iff some node of the subtree's pre-order owns it |
| `MeshTraversal.PreOrder` | src/main.rs:105-107 | the pre-order of a subtree is non-empty and starts with the subtree's root |
| `MeshTraversal.ChildrenMeshesSnoc` | src/main.rs:105-107 | traversing one more child appends exactly that child's result |
| `MeshTraversal.ChildrenFromIsChildrenMeshes` | src/main.rs:105-107 | the results still to be appended from child `j` on are the traversal of the remaining children |
| `MeshTraversal.CollectOwnMeshes` | src/main.rs:93-103 | the push loop over the primitives of the node's resolved mesh returns exactly the node's own handles, and none when the mesh is absent or unresolved |
| `MeshTraversal.CollectMeshes` | src/main.rs:88-110 | the own-primitive loop, the append loop over children and the recursion return exactly the handles `MeshEvent` specifies |
| `SceneLoading.SceneMeshesAppend` | src/main.rs:73-80 | collecting over two node lists one after the other appends the two results |
| `SceneLoading.SceneMeshesMember` | src/main.rs:73-80 | a handle is collected iff some handle of the file's node list resolves in `Assets<GltfNode>` and that node's `mesh_event` yields it |
| `SceneLoading.SceneMeshesAllMissing` | src/main.rs:73-79 | node handles absent from `Assets<GltfNode>` are skipped; when none resolves, nothing is collected |
| `SceneLoading.RunIgnoresNonCreated` | src/main.rs:66-67 | a run of events none of which is `Created` leaves the resources unchanged, spawns nothing and does not panic |
| `SceneLoading.StepMismatchedCreated` | src/main.rs:67-71 | a `Created` event for another present file spawns nothing and still sets `LoadedMeshes` to the empty list |
| `SceneLoading.StepMatchedCreated` | src/main.rs:71-83 | a `Created` event for the expected file spawns its first scene and sets `LoadedMeshes` to the concatenation of `mesh_event` over its resolvable nodes |
| `SceneLoading.RunSplit` | src/main.rs:66-85 | processing events in one batch equals processing a prefix and then the rest from the state it left, a panic in the prefix ending the run |
| `SceneLoading.RunLastCreatedWins` | src/main.rs:66-84 | after a run that does not panic, `LoadedMeshes` holds what the last `Created` event set (the expected file's meshes or the empty list) |
| `SceneLoading.RunSpawnCount` | src/main.rs:66-72 | after a run that does not panic, one scene was appended per `Created` event for the expected handle, the earlier spawns are kept, and every appended scene is the expected file's first scene (which then exists) |
| `SceneLoading.RepeatedCreatedSpawnsAgain` | src/main.rs:66-83 | two `Created` events for the expected handle spawn the first scene twice and leave the same meshes loaded |
| `SceneLoading.World.constructor` | src/main.rs:39-40 | after `setup`, `GltfMeshes` holds the requested handle, `LoadedMeshes` is absent and no scene is spawned |
| `SceneLoading.World.ProcessGltf` | src/main.rs:58-86 | the event loop, with its handle check, scene spawn and node loop, leaves the world in the state `Run` specifies, or reports the panic `Run` specifies (absent glTF at line 68, no scene at line 72) |
| `Json.Index` | src/main.rs:128 | `v[key]` is the field's value when `v` is an object holding `key`, and `Null` otherwise |
| `Json.AsStr` | src/main.rs:128 | `as_str` yields the text exactly for string values |
| `ColliderActivation.Activation` | src/main.rs:129-134 | the inserted components: the given collider on the given entity, `Sensor(false)`, CCD on, default collision types, collision events on |
| `ColliderActivation.ColliderRequestedIff` | src/main.rs:128 | extras ask for a collider iff they are an object whose `"collider"` field is the JSON string `"true"` |
| `ColliderActivation.ColliderNotRequested` | src/main.rs:128 | a boolean `true`, the string `"false"`, a missing key and any non-object value do not ask for a collider |
| `ColliderActivation.ThenCommands` | src/main.rs:120-137 | a non-panicking sequence of two loop parts is made of two non-panicking parts, whose commands are joined in order |
| `ColliderActivation.ThenPanicked` | src/main.rs:127 | a panic in a sequence of two loop parts is the first part's panic, or the second's when the first did not panic |
| `ColliderActivation.ForParentsSound` | src/main.rs:125-136 | every insertion from the parent loop is this entity's collider on its parent, and some parent row activates |
| `ColliderActivation.ForLoadedSound` | src/main.rs:121-140 | every insertion from the loaded-mesh loop comes from an eligible entity's collider and an activating parent row |
| `ColliderActivation.ForChildrenSound` | src/main.rs:120-141 | every insertion from the mesh-entity loop comes from some eligible entity and an activating parent row |
| `ColliderActivation.ControlExtrasSound` | src/main.rs:119-137 | nothing is inserted without `LoadedMeshes`. Otherwise every insertion puts, on the parent of a mesh entity whose handle is loaded and whose mesh yields a collider, that collider with `Sensor(false)`, CCD and collision events. The parent's extras must parse and have `"collider"` equal to `"true"` |
| `ColliderActivation.ForParentsComplete` | src/main.rs:125-136 | with no panic, every matching parent row parsed, and an activating one yields the insertion |
| `ColliderActivation.ForLoadedComplete` | src/main.rs:121-140 | with no panic, an eligible entity's matching parent rows parsed, and an activating one yields the insertion |
| `ColliderActivation.ForChildrenComplete` | src/main.rs:120-141 | with no panic, every eligible entity's matching parent rows parsed, and an activating one yields the insertion |
| `ColliderActivation.ControlExtrasComplete` | src/main.rs:120-137 | with `LoadedMeshes` present and no panic, every eligible mesh entity's parent row parsed. Each such parent whose `"collider"` is `"true"` received that entity's collider |
| `ColliderActivation.ForParentsPanic` | src/main.rs:125-127 | a panic in the parent loop names a matching parent row whose extras do not parse |
| `ColliderActivation.ForLoadedPanic` | src/main.rs:121-127 | a panic in the loaded-mesh loop comes from an eligible entity and a matching parent row whose extras do not parse |
| `ColliderActivation.ForChildrenPanic` | src/main.rs:120-127 | a panic in the mesh-entity loop comes from an eligible entity and a matching parent row whose extras do not parse |
| `ColliderActivation.ControlExtrasPanic` | src/main.rs:127 | the system panics iff some eligible mesh entity has a parent row whose extras do not parse, and the panic names such a row |
| `ColliderActivation.ControlExtras` | src/main.rs:112-144 | the four nested loops issue exactly the commands, in order, or the panic, that `ControlExtrasSpec` specifies |
| `ColliderActivation.ScenarioOnlyAnnotatedNodeActivates` | src/main.rs:119-137 | in a root, A (`{"collider":"true"}`), B (no extras) chain, only A receives a collider, built from A's own mesh entity |

## Left out

- `main` and `setup` (src/main.rs:12-56): app, window, plugin, light and camera configuration, with no logic. The constructor of `World` stands for the one thing `setup` does that matters here, storing the expected handle.
- Bevy's ECS machinery. `Commands` are applied later by Bevy, and the model applies `spawn_scene` and `insert_resource` in issue order, which gives the same final state. `Added<...>` change detection is modelled by passing only this frame's new rows as the query sequences. System scheduling across frames is not modelled.
- `ControlExtras` returns the insertion commands, not the components they leave on entities. Repeated insertions on one parent (a mesh handle listed twice in `LoadedMeshes`, or several mesh entities under one parent) appear as repeated commands. In Bevy the last one wins.
- `Collider::bevy_mesh` (src/main.rs:124): a Rapier call, taken as an arbitrary function from mesh to optional collider. Triangle-mesh construction and its degeneracy rules are not modelled.
- `serde_json::from_str` (src/main.rs:127): taken as an arbitrary function from text to a parse result. JSON syntax is not modelled, and numbers are kept as text.
- Nested meshes are collected several times. The node list of a loaded glTF file holds every node, children included, and `mesh_event` also walks each listed node's children. So a nested node's meshes appear in `LoadedMeshes` once for itself and once for each listed ancestor. The model takes the node list as given, so `SceneMeshes` reflects this, but no lemma counts the repeats. In `ControlExtras` each repeat of a handle in `LoadedMeshes` issues the insertion again.
- Spawned scenes are recorded by their `Handle<Scene>`. Scene instantiation and the entity hierarchy it creates are not modelled.
- Transforms: the parent `Transform` bound as `_t` (src/main.rs:125) is never used, and node transforms are not read by the core.
- Floating-point vertex data: points have integer coordinates, because only the collider oracle reads them.
- `SceneLoading.World.ProcessGltf`: after a panic the method reports it but says nothing about the world, because the app stops there.
