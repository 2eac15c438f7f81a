/**
 * `process_gltf` (src/main.rs:58-86): on every `AssetEvent::Created` for a
 * glTF file, replace the `LoadedMeshes` resource; when the created handle is
 * the expected one held by `GltfMeshes`, also spawn its first scene and fill
 * `LoadedMeshes` with the mesh handles of every resolvable node of its node list.
 */
module SceneLoading {
  import opened Wrappers
  import opened Gltf
  import opened MeshTraversal

  /** `AssetEvent<Gltf>`. */
  datatype AssetEvent = Created(handle: GltfHandle) | Modified(handle: GltfHandle) | Removed(handle: GltfHandle)

  /** The two ways `process_gltf` can panic. */
  datatype Panic =
    | MissingGltf(handle: GltfHandle)  // `assets_gltf.get(handle).unwrap()` on an absent handle (line 68)
    | NoScene(handle: GltfHandle)      // `scene.scenes[0]` on a file without scenes (line 72)

  /**
   * The part of the world `process_gltf` writes: the `LoadedMeshes` resource
   * (absent until first inserted) and the scenes spawned so far, in order.
   */
  datatype Resources = Resources(loadedMeshes: Option<seq<MeshHandle>>, spawnedScenes: seq<SceneHandle>)

  /** The read-only asset tables `process_gltf` consults. */
  datatype Assets = Assets(gltfs: GltfAssets, nodes: NodeAssets, meshes: MeshAssets)

  /**
   * `mesh_event` over each handle of the file's node list that resolves,
   * appended in order (lines 73-80). The list holds every node of the file,
   * children included, so a nested node is reached once per listed ancestor
   * as well as on its own.
   */
  function SceneMeshes(nodes: seq<GltfNodeHandle>, assets: Assets): seq<MeshHandle>
  {
    if nodes == [] then []
    else (if nodes[0] in assets.nodes then MeshEvent(assets.nodes[nodes[0]], assets.meshes) else [])
         + SceneMeshes(nodes[1..], assets)
  }

  /** What `LoadedMeshes` is set to by a `Created(handle)` event: empty unless the handle is the expected one. */
  function CreatedMeshes(handle: GltfHandle, expected: GltfHandle, assets: Assets): seq<MeshHandle>
    requires handle in assets.gltfs
  {
    if handle == expected then SceneMeshes(assets.gltfs[handle].nodes, assets) else []
  }

  /** The effect of one event (lines 67-84). */
  function Step(r: Resources, ev: AssetEvent, expected: GltfHandle, assets: Assets): Result<Resources, Panic>
  {
    match ev
    case Created(h) =>
      if h !in assets.gltfs then Err(MissingGltf(h))
      else if h == expected then
        if |assets.gltfs[h].scenes| == 0 then Err(NoScene(h))
        else Ok(Resources(Some(CreatedMeshes(h, expected, assets)), r.spawnedScenes + [assets.gltfs[h].scenes[0]]))
      else Ok(Resources(Some(CreatedMeshes(h, expected, assets)), r.spawnedScenes))
    case Modified(_) => Ok(r)
    case Removed(_) => Ok(r)
  }

  /** The effect of the events in order (line 66); the first panic ends the run. */
  function Run(r: Resources, events: seq<AssetEvent>, expected: GltfHandle, assets: Assets): Result<Resources, Panic>
    decreases |events|
  {
    if events == [] then Ok(r)
    else match Step(r, events[0], expected, assets)
      case Err(p) => Err(p)
      case Ok(r') => Run(r', events[1..], expected, assets)
  }

  /** The number of `Created` events for the expected handle. */
  function MatchingCount(events: seq<AssetEvent>, expected: GltfHandle): nat
  {
    if events == [] then 0
    else (if events[0] == Created(expected) then 1 else 0) + MatchingCount(events[1..], expected)
  }

  /** `SceneMeshes` distributes over concatenation of node lists. */
  lemma {:induction false} SceneMeshesAppend(a: seq<GltfNodeHandle>, b: seq<GltfNodeHandle>, assets: Assets)
    ensures SceneMeshes(a + b, assets) == SceneMeshes(a, assets) + SceneMeshes(b, assets)
    decreases a
  {
    if a == [] {
      assert a + b == b;
    } else {
      assert (a + b)[0] == a[0];
      assert (a + b)[1..] == a[1..] + b;
      SceneMeshesAppend(a[1..], b, assets);
    }
  }

  /** A handle is collected exactly when some resolvable listed node's `mesh_event` yields it. */
  lemma {:induction false} SceneMeshesMember(nodes: seq<GltfNodeHandle>, assets: Assets, m: MeshHandle)
    ensures m in SceneMeshes(nodes, assets) <==>
            exists k :: 0 <= k < |nodes| && nodes[k] in assets.nodes && m in MeshEvent(assets.nodes[nodes[k]], assets.meshes)
    decreases nodes
  {
    if nodes != [] {
      SceneMeshesMember(nodes[1..], assets, m);
      if m in SceneMeshes(nodes[1..], assets) {
        var k :| 0 <= k < |nodes[1..]| && nodes[1..][k] in assets.nodes && m in MeshEvent(assets.nodes[nodes[1..][k]], assets.meshes);
        assert nodes[k + 1] == nodes[1..][k];
      }
      if exists k :: 0 <= k < |nodes| && nodes[k] in assets.nodes && m in MeshEvent(assets.nodes[nodes[k]], assets.meshes) {
        var k :| 0 <= k < |nodes| && nodes[k] in assets.nodes && m in MeshEvent(assets.nodes[nodes[k]], assets.meshes);
        if k > 0 {
          assert nodes[1..][k - 1] == nodes[k];
        }
      }
    }
  }

  /** Node handles absent from `Assets<GltfNode>` are skipped: with none resolvable, nothing is collected. */
  lemma {:induction false} SceneMeshesAllMissing(nodes: seq<GltfNodeHandle>, assets: Assets)
    requires forall k :: 0 <= k < |nodes| ==> nodes[k] !in assets.nodes
    ensures SceneMeshes(nodes, assets) == []
    decreases nodes
  {
    if nodes != [] {
      assert nodes[0] !in assets.nodes;
      SceneMeshesAllMissing(nodes[1..], assets);
    }
  }

  /** Events other than `Created` change nothing and spawn nothing, however many there are. */
  lemma {:induction false} RunIgnoresNonCreated(r: Resources, events: seq<AssetEvent>, expected: GltfHandle, assets: Assets)
    requires forall k :: 0 <= k < |events| ==> !events[k].Created?
    ensures Run(r, events, expected, assets) == Ok(r)
    decreases |events|
  {
    if events != [] {
      assert !events[0].Created?;
      RunIgnoresNonCreated(r, events[1..], expected, assets);
    }
  }

  /** A `Created` event for another file spawns nothing and still overwrites `LoadedMeshes` with an empty list. */
  lemma StepMismatchedCreated(r: Resources, h: GltfHandle, expected: GltfHandle, assets: Assets)
    requires h != expected && h in assets.gltfs
    ensures Step(r, Created(h), expected, assets) == Ok(Resources(Some([]), r.spawnedScenes))
  {
  }

  /** A `Created` event for the expected file spawns its first scene and loads the meshes of its resolvable nodes. */
  lemma StepMatchedCreated(r: Resources, expected: GltfHandle, assets: Assets)
    requires expected in assets.gltfs && |assets.gltfs[expected].scenes| > 0
    ensures var g := assets.gltfs[expected];
            Step(r, Created(expected), expected, assets) ==
            Ok(Resources(Some(SceneMeshes(g.nodes, assets)), r.spawnedScenes + [g.scenes[0]]))
  {
  }

  /** Run splits at any point: the events after `k` act on the state left by the first `k`. */
  lemma {:induction false} RunSplit(r: Resources, events: seq<AssetEvent>, k: nat, expected: GltfHandle, assets: Assets)
    requires k <= |events|
    ensures Run(r, events, expected, assets) ==
            match Run(r, events[..k], expected, assets)
            case Err(p) => Err(p)
            case Ok(r') => Run(r', events[k..], expected, assets)
    decreases k
  {
    if k > 0 {
      assert events[..k][0] == events[0];
      assert events[..k][1..] == events[1..][..k - 1];
      assert events[k..] == events[1..][k - 1..];
      match Step(r, events[0], expected, assets)
      case Err(p) =>
      case Ok(r') => RunSplit(r', events[1..], k - 1, expected, assets);
    } else {
      assert events[k..] == events;
    }
  }

  /**
   * Every `Created` event overwrites `LoadedMeshes`: after a run that does not
   * panic, it holds what the LAST `Created` event set.
   */
  lemma {:induction false} RunLastCreatedWins(r: Resources, events: seq<AssetEvent>, k: nat, expected: GltfHandle, assets: Assets)
    requires k < |events| && events[k].Created? && events[k].handle in assets.gltfs
    requires forall j :: k < j < |events| ==> !events[j].Created?
    requires Run(r, events, expected, assets).Ok?
    ensures Run(r, events, expected, assets).value.loadedMeshes == Some(CreatedMeshes(events[k].handle, expected, assets))
    decreases |events|
  {
    if k == 0 {
      match Step(r, events[0], expected, assets)
      case Ok(r') =>
        forall j | 0 <= j < |events[1..]| ensures !events[1..][j].Created? {
          assert events[1..][j] == events[j + 1];
        }
        RunIgnoresNonCreated(r', events[1..], expected, assets);
    } else {
      match Step(r, events[0], expected, assets)
      case Ok(r') =>
        assert events[1..][k - 1] == events[k];
        forall j | k - 1 < j < |events[1..]| ensures !events[1..][j].Created? {
          assert events[1..][j] == events[j + 1];
        }
        RunLastCreatedWins(r', events[1..], k - 1, expected, assets);
    }
  }

  /**
   * Without a one-shot gate, each `Created` event for the expected file spawns
   * one more scene, and every scene appended is that file's first scene.
   */
  lemma {:induction false} RunSpawnCount(r: Resources, events: seq<AssetEvent>, expected: GltfHandle, assets: Assets)
    requires Run(r, events, expected, assets).Ok?
    ensures |Run(r, events, expected, assets).value.spawnedScenes| == |r.spawnedScenes| + MatchingCount(events, expected)
    ensures r.spawnedScenes <= Run(r, events, expected, assets).value.spawnedScenes
    ensures var s := Run(r, events, expected, assets).value.spawnedScenes;
            (|s| > |r.spawnedScenes| ==> expected in assets.gltfs && |assets.gltfs[expected].scenes| > 0) &&
            forall j :: |r.spawnedScenes| <= j < |s| ==> s[j] == assets.gltfs[expected].scenes[0]
    decreases |events|
  {
    if events != [] {
      match Step(r, events[0], expected, assets)
      case Ok(r') => RunSpawnCount(r', events[1..], expected, assets);
    }
  }

  /** Re-signalling the expected handle spawns the scene a second time and reloads the same meshes. */
  lemma RepeatedCreatedSpawnsAgain(r: Resources, expected: GltfHandle, assets: Assets)
    requires expected in assets.gltfs && |assets.gltfs[expected].scenes| > 0
    ensures var g := assets.gltfs[expected];
            Run(r, [Created(expected), Created(expected)], expected, assets) ==
            Ok(Resources(Some(SceneMeshes(g.nodes, assets)), r.spawnedScenes + [g.scenes[0], g.scenes[0]]))
  {
    var g := assets.gltfs[expected];
    var r1 := Resources(Some(SceneMeshes(g.nodes, assets)), r.spawnedScenes + [g.scenes[0]]);
    assert Step(r, Created(expected), expected, assets) == Ok(r1);
    assert [Created(expected), Created(expected)][1..] == [Created(expected)];
    assert [Created(expected)][1..] == [];
    var r2 := Resources(Some(SceneMeshes(g.nodes, assets)), r1.spawnedScenes + [g.scenes[0]]);
    assert Step(r1, Created(expected), expected, assets) == Ok(r2);
    assert Run(r1, [Created(expected)], expected, assets) == Run(r2, [], expected, assets);
    assert r2.spawnedScenes == r.spawnedScenes + [g.scenes[0], g.scenes[0]];
  }

  /** The ECS world as far as `process_gltf` sees it. */
  class World {
    /** The `GltfMeshes` resource: the handle of the glTF file `setup` asked for. */
    const expected: GltfHandle
    /** The `LoadedMeshes` resource; `None` until the first insertion. */
    var loadedMeshes: Option<seq<MeshHandle>>
    /** Every scene spawned so far, in order. */
    var spawnedScenes: seq<SceneHandle>

    function State(): Resources
      reads this
    {
      Resources(loadedMeshes, spawnedScenes)
    }

    /** A world right after `setup`: the expected handle is known, nothing is loaded or spawned. */
    constructor (expected: GltfHandle)
      ensures this.expected == expected
      ensures State() == Resources(None, [])
    {
      this.expected := expected;
      loadedMeshes := None;
      spawnedScenes := [];
    }

    /**
     * One run of the system over this frame's events. `panic` is the panic
     * that ended it, if any; then the world state is not meaningful.
     */
    method ProcessGltf(events: seq<AssetEvent>, assets: Assets) returns (panic: Option<Panic>)
      modifies this
      ensures match Run(old(State()), events, expected, assets)
              case Ok(r) => panic == None && State() == r
              case Err(p) => panic == Some(p)
    {
      var i := 0;
      while i < |events|
        invariant 0 <= i <= |events|
        invariant Run(old(State()), events, expected, assets) == Run(State(), events[i..], expected, assets)
      {
        assert events[i..][0] == events[i];
        assert events[i..][1..] == events[i + 1..];
        var ev := events[i];
        ghost var before := State();
        if ev.Created? {
          var handle := ev.handle;
          if handle !in assets.gltfs {
            return Some(MissingGltf(handle));
          }
          var scene := assets.gltfs[handle];
          var meshes: seq<MeshHandle> := [];
          if handle == expected {
            if |scene.scenes| == 0 {
              return Some(NoScene(handle));
            }
            spawnedScenes := spawnedScenes + [scene.scenes[0]];
            var j := 0;
            while j < |scene.nodes|
              invariant 0 <= j <= |scene.nodes|
              invariant meshes == SceneMeshes(scene.nodes[..j], assets)
              invariant spawnedScenes == before.spawnedScenes + [scene.scenes[0]]
            {
              SceneMeshesAppend(scene.nodes[..j], [scene.nodes[j]], assets);
              assert scene.nodes[..j + 1] == scene.nodes[..j] + [scene.nodes[j]];
              assert [scene.nodes[j]][1..] == [];
              if scene.nodes[j] in assets.nodes {
                var x := CollectMeshes(assets.nodes[scene.nodes[j]], assets.meshes);
                meshes := meshes + x;
              }
              j := j + 1;
            }
            assert scene.nodes[..j] == scene.nodes;
          }
          loadedMeshes := Some(meshes);
        }
        assert Step(before, ev, expected, assets) == Ok(State());
        i := i + 1;
      }
      return None;
    }
  }
}
