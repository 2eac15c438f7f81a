/**
 * `control_extras` (src/main.rs:112-144): for every newly added mesh entity
 * whose mesh handle is in `LoadedMeshes` and whose mesh yields a collider,
 * give that collider, as a solid, CCD-enabled, collision-event-reporting
 * body, to the entity's PARENT when the parent's glTF extras are JSON whose
 * `"collider"` field is the string `"true"`. Only such parents' extras are
 * parsed, and if they are not JSON the system panics.
 */
module ColliderActivation {
  import opened Wrappers
  import opened Gltf
  import opened Json

  /** An ECS `Entity`. */
  type Entity = nat

  /** A vertex position; coordinates are kept symbolic (the source uses `f32`). */
  datatype Point = Point(x: int, y: int, z: int)

  /** A Bevy `Mesh` asset, only ever handed to the collider constructor. */
  datatype Mesh = Mesh(positions: seq<Point>, indices: seq<nat>)

  /** A Rapier `Collider`: whatever shape the constructor built. */
  datatype Collider = Collider(vertices: seq<Point>, indices: seq<nat>)

  /**
   * What the system reads besides its queries: `Assets<Mesh>`, the collider
   * constructor `Collider::bevy_mesh` and the parser `serde_json::from_str`,
   * the last two as uninterpreted functions.
   */
  datatype Env = Env(
    meshes: map<MeshHandle, Mesh>,
    build: Mesh -> Option<Collider>,
    parse: string -> ParseResult)

  /** A row of `q_child`: a newly added mesh entity, its parent and its mesh handle. */
  datatype ChildRow = ChildRow(parent: Entity, entity: Entity, mesh: MeshHandle)

  /** A row of `q_parent`: an entity whose `GltfExtras` were just added, with their raw text. The transform is unused. */
  datatype ParentRow = ParentRow(entity: Entity, extras: string)

  /**
   * The components one command inserts on `target` (lines 129-134):
   * `Sensor(sensor)`, the collider, `Ccd { enabled: ccdEnabled }`,
   * `ActiveCollisionTypes::default()` when `defaultCollisionTypes`, and
   * `ActiveEvents::COLLISION_EVENTS` when `collisionEvents`.
   */
  datatype Insertion = Insertion(
    target: Entity,
    sensor: bool,
    collider: Collider,
    ccdEnabled: bool,
    defaultCollisionTypes: bool,
    collisionEvents: bool)

  /** The commands issued, in order, or the panic of `expect` on extras that are not JSON. */
  datatype Outcome = Commands(inserts: seq<Insertion>) | Panicked(entity: Entity, extras: string)

  /** The one kind of insertion this system issues: solid, CCD on, default collision types, collision events on. */
  function Activation(target: Entity, collider: Collider): (x: Insertion)
    ensures x.target == target && x.collider == collider
    ensures !x.sensor && x.ccdEnabled && x.defaultCollisionTypes && x.collisionEvents
  {
    Insertion(target, false, collider, true, true, true)
  }

  /** `v["collider"].as_str() == Some("true")` (line 128). */
  predicate ColliderRequested(v: Value)
  {
    AsStr(Index(v, "collider")) == Some("true")
  }

  /** The extras ask for a collider exactly when they are an object whose `"collider"` field is the string `"true"`. */
  lemma ColliderRequestedIff(v: Value)
    ensures ColliderRequested(v) <==> v.Object? && "collider" in v.fields && v.fields["collider"] == String("true")
  {
    if ColliderRequested(v) {
      assert Index(v, "collider").String?;
    }
  }

  /** Neither a JSON boolean `true`, nor the string `"false"`, nor an object without the key, nor a non-object activates. */
  lemma ColliderNotRequested(fields: map<string, Value>, other: Value)
    requires !other.Object?
    ensures !ColliderRequested(Object(fields["collider" := Bool(true)]))
    ensures !ColliderRequested(Object(fields["collider" := String("false")]))
    ensures !ColliderRequested(Object(fields - {"collider"}))
    ensures !ColliderRequested(other)
  {
  }

  /** Run `a`, then `b`; a panic in `a` stops everything. */
  function Then(a: Outcome, b: Outcome): Outcome
  {
    match a
    case Panicked(_, _) => a
    case Commands(xs) =>
      match b
      case Panicked(_, _) => b
      case Commands(ys) => Commands(xs + ys)
  }

  /** A mesh entity that passes the checks of lines 121-124 for the loaded handles `loaded`. */
  predicate Eligible(c: ChildRow, loaded: seq<MeshHandle>, env: Env)
  {
    c.mesh in loaded && c.mesh in env.meshes && env.build(env.meshes[c.mesh]).Some?
  }

  /** The collider built from an eligible entity's mesh. */
  function ColliderOf(c: ChildRow, env: Env): Collider
    requires c.mesh in env.meshes && env.build(env.meshes[c.mesh]).Some?
  {
    env.build(env.meshes[c.mesh]).value
  }

  /** Parent row `p` is the parent of `c` and its extras parse and ask for a collider. */
  predicate Activates(p: ParentRow, c: ChildRow, env: Env)
  {
    p.entity == c.parent && env.parse(p.extras).Parsed? && ColliderRequested(env.parse(p.extras).value)
  }

  /** The innermost body, one parent row (lines 126-135). */
  function ParentStep(c: ChildRow, collider: Collider, p: ParentRow, env: Env): Outcome
  {
    if p.entity != c.parent then Commands([])
    else match env.parse(p.extras)
      case Malformed => Panicked(p.entity, p.extras)
      case Parsed(v) => if ColliderRequested(v) then Commands([Activation(c.parent, collider)]) else Commands([])
  }

  /** The loop over `q_parent` (line 125). */
  function ForParents(c: ChildRow, collider: Collider, parents: seq<ParentRow>, env: Env): Outcome
  {
    if parents == [] then Commands([])
    else Then(ParentStep(c, collider, parents[0], env), ForParents(c, collider, parents[1..], env))
  }

  /** The body for one loaded handle (lines 122-138). */
  function LoadedStep(c: ChildRow, handle: MeshHandle, parents: seq<ParentRow>, env: Env): Outcome
  {
    if handle != c.mesh || c.mesh !in env.meshes then Commands([])
    else match env.build(env.meshes[c.mesh])
      case None => Commands([])
      case Some(collider) => ForParents(c, collider, parents, env)
  }

  /** The loop over `LoadedMeshes` (line 121). */
  function ForLoaded(c: ChildRow, handles: seq<MeshHandle>, parents: seq<ParentRow>, env: Env): Outcome
  {
    if handles == [] then Commands([])
    else Then(LoadedStep(c, handles[0], parents, env), ForLoaded(c, handles[1..], parents, env))
  }

  /** The loop over `q_child` (line 120). */
  function ForChildren(children: seq<ChildRow>, loaded: seq<MeshHandle>, parents: seq<ParentRow>, env: Env): Outcome
  {
    if children == [] then Commands([])
    else Then(ForLoaded(children[0], loaded, parents, env), ForChildren(children[1..], loaded, parents, env))
  }

  /** What one run of `control_extras` does; nothing without the `LoadedMeshes` resource (line 119). */
  function ControlExtrasSpec(loaded: Option<seq<MeshHandle>>, children: seq<ChildRow>, parents: seq<ParentRow>, env: Env): Outcome
  {
    match loaded
    case None => Commands([])
    case Some(handles) => ForChildren(children, handles, parents, env)
  }

  /** A run that did not panic is made of two runs that did not panic. */
  lemma ThenCommands(a: Outcome, b: Outcome)
    requires Then(a, b).Commands?
    ensures a.Commands? && b.Commands? && Then(a, b).inserts == a.inserts + b.inserts
  {
  }

  /** A panicking run has its panic from one of its two parts. */
  lemma ThenPanicked(a: Outcome, b: Outcome)
    requires Then(a, b).Panicked?
    ensures Then(a, b) == a || (a.Commands? && Then(a, b) == b)
  {
  }

  /** `Commands([])` is a left unit of `Then`. */
  lemma ThenUnit(y: Outcome)
    ensures Then(Commands([]), y) == y
  {
    if y.Commands? {
      assert [] + y.inserts == y.inserts;
    }
  }

  /** Commands issued one after the other may be gathered into one accumulated list. */
  lemma ThenShift(acc: seq<Insertion>, more: seq<Insertion>, y: Outcome)
    ensures Then(Commands(acc), Then(Commands(more), y)) == Then(Commands(acc + more), y)
  {
    if y.Commands? {
      assert acc + (more + y.inserts) == (acc + more) + y.inserts;
    }
  }

  /*
   * Soundness: every command targets the parent of an eligible mesh entity
   * whose extras ask for a collider, with that entity's collider and the
   * fixed flags.
   */

  lemma {:induction false} ForParentsSound(c: ChildRow, collider: Collider, parents: seq<ParentRow>, env: Env, x: Insertion)
    requires ForParents(c, collider, parents, env).Commands?
    requires x in ForParents(c, collider, parents, env).inserts
    ensures x == Activation(c.parent, collider)
    ensures exists k :: 0 <= k < |parents| && Activates(parents[k], c, env)
    decreases parents
  {
    var step := ParentStep(c, collider, parents[0], env);
    var rest := ForParents(c, collider, parents[1..], env);
    ThenCommands(step, rest);
    if x in step.inserts {
      assert Activates(parents[0], c, env);
    } else {
      ForParentsSound(c, collider, parents[1..], env, x);
      var k :| 0 <= k < |parents[1..]| && Activates(parents[1..][k], c, env);
      assert parents[1..][k] == parents[k + 1];
    }
  }

  lemma {:induction false} ForLoadedSound(c: ChildRow, handles: seq<MeshHandle>, parents: seq<ParentRow>, env: Env, x: Insertion)
    requires ForLoaded(c, handles, parents, env).Commands?
    requires x in ForLoaded(c, handles, parents, env).inserts
    ensures Eligible(c, handles, env) && x == Activation(c.parent, ColliderOf(c, env))
    ensures exists k :: 0 <= k < |parents| && Activates(parents[k], c, env)
    decreases handles
  {
    var step := LoadedStep(c, handles[0], parents, env);
    var rest := ForLoaded(c, handles[1..], parents, env);
    ThenCommands(step, rest);
    if x in step.inserts {
      ForParentsSound(c, ColliderOf(c, env), parents, env, x);
    } else {
      ForLoadedSound(c, handles[1..], parents, env, x);
    }
  }

  lemma {:induction false} ForChildrenSound(children: seq<ChildRow>, loaded: seq<MeshHandle>, parents: seq<ParentRow>, env: Env, x: Insertion)
    requires ForChildren(children, loaded, parents, env).Commands?
    requires x in ForChildren(children, loaded, parents, env).inserts
    ensures exists i, k :: 0 <= i < |children| && 0 <= k < |parents| &&
              Eligible(children[i], loaded, env) && Activates(parents[k], children[i], env) &&
              x == Activation(children[i].parent, ColliderOf(children[i], env))
    decreases children
  {
    var step := ForLoaded(children[0], loaded, parents, env);
    var rest := ForChildren(children[1..], loaded, parents, env);
    ThenCommands(step, rest);
    if x in step.inserts {
      ForLoadedSound(children[0], loaded, parents, env, x);
      var k :| 0 <= k < |parents| && Activates(parents[k], children[0], env);
      assert Eligible(children[0], loaded, env) && Activates(parents[k], children[0], env);
    } else {
      ForChildrenSound(children[1..], loaded, parents, env, x);
      var i, k :| 0 <= i < |children[1..]| && 0 <= k < |parents| &&
                  Eligible(children[1..][i], loaded, env) && Activates(parents[k], children[1..][i], env) &&
                  x == Activation(children[1..][i].parent, ColliderOf(children[1..][i], env));
      assert children[1..][i] == children[i + 1];
    }
  }

  /**
   * Nothing is attached without `LoadedMeshes`, and otherwise every command
   * inserts, on the parent of an eligible mesh entity whose extras ask for it,
   * that entity's collider as a solid, CCD-enabled, event-reporting body.
   */
  lemma ControlExtrasSound(loaded: Option<seq<MeshHandle>>, children: seq<ChildRow>, parents: seq<ParentRow>, env: Env, x: Insertion)
    requires ControlExtrasSpec(loaded, children, parents, env).Commands?
    requires x in ControlExtrasSpec(loaded, children, parents, env).inserts
    ensures loaded.Some?
    ensures exists i, k :: 0 <= i < |children| && 0 <= k < |parents| &&
              Eligible(children[i], loaded.value, env) && Activates(parents[k], children[i], env) &&
              x == Activation(children[i].parent, ColliderOf(children[i], env))
    ensures !x.sensor && x.ccdEnabled && x.defaultCollisionTypes && x.collisionEvents
  {
    ForChildrenSound(children, loaded.value, parents, env, x);
  }

  /*
   * Completeness: when the run does not panic, every eligible mesh entity's
   * parent row was parsed, and each one that asks for a collider got it.
   */

  lemma {:induction false} ForParentsComplete(c: ChildRow, collider: Collider, parents: seq<ParentRow>, env: Env, k: nat)
    requires ForParents(c, collider, parents, env).Commands?
    requires k < |parents| && parents[k].entity == c.parent
    ensures env.parse(parents[k].extras).Parsed?
    ensures ColliderRequested(env.parse(parents[k].extras).value) ==>
            Activation(c.parent, collider) in ForParents(c, collider, parents, env).inserts
    decreases parents
  {
    var step := ParentStep(c, collider, parents[0], env);
    var rest := ForParents(c, collider, parents[1..], env);
    ThenCommands(step, rest);
    if k > 0 {
      assert parents[1..][k - 1] == parents[k];
      ForParentsComplete(c, collider, parents[1..], env, k - 1);
    }
  }

  lemma {:induction false} ForLoadedComplete(c: ChildRow, handles: seq<MeshHandle>, parents: seq<ParentRow>, env: Env, k: nat)
    requires ForLoaded(c, handles, parents, env).Commands?
    requires Eligible(c, handles, env) && k < |parents| && parents[k].entity == c.parent
    ensures env.parse(parents[k].extras).Parsed?
    ensures ColliderRequested(env.parse(parents[k].extras).value) ==>
            Activation(c.parent, ColliderOf(c, env)) in ForLoaded(c, handles, parents, env).inserts
    decreases handles
  {
    var step := LoadedStep(c, handles[0], parents, env);
    var rest := ForLoaded(c, handles[1..], parents, env);
    ThenCommands(step, rest);
    if handles[0] == c.mesh {
      ForParentsComplete(c, ColliderOf(c, env), parents, env, k);
    } else {
      assert c.mesh in handles[1..];
      ForLoadedComplete(c, handles[1..], parents, env, k);
    }
  }

  lemma {:induction false} ForChildrenComplete(children: seq<ChildRow>, loaded: seq<MeshHandle>, parents: seq<ParentRow>, env: Env, i: nat, k: nat)
    requires ForChildren(children, loaded, parents, env).Commands?
    requires i < |children| && k < |parents|
    requires Eligible(children[i], loaded, env) && parents[k].entity == children[i].parent
    ensures env.parse(parents[k].extras).Parsed?
    ensures ColliderRequested(env.parse(parents[k].extras).value) ==>
            Activation(children[i].parent, ColliderOf(children[i], env)) in ForChildren(children, loaded, parents, env).inserts
    decreases children
  {
    var step := ForLoaded(children[0], loaded, parents, env);
    var rest := ForChildren(children[1..], loaded, parents, env);
    ThenCommands(step, rest);
    if i == 0 {
      ForLoadedComplete(children[0], loaded, parents, env, k);
    } else {
      assert children[1..][i - 1] == children[i];
      ForChildrenComplete(children[1..], loaded, parents, env, i - 1, k);
    }
  }

  /**
   * With `LoadedMeshes` present and no panic, the parent row of every eligible
   * mesh entity parsed, and the parent received the entity's collider whenever
   * its `"collider"` field is the string `"true"`.
   */
  lemma ControlExtrasComplete(handles: seq<MeshHandle>, children: seq<ChildRow>, parents: seq<ParentRow>, env: Env, i: nat, k: nat)
    requires ControlExtrasSpec(Some(handles), children, parents, env).Commands?
    requires i < |children| && k < |parents|
    requires Eligible(children[i], handles, env) && parents[k].entity == children[i].parent
    ensures env.parse(parents[k].extras).Parsed?
    ensures ColliderRequested(env.parse(parents[k].extras).value) ==>
            Activation(children[i].parent, ColliderOf(children[i], env)) in ControlExtrasSpec(Some(handles), children, parents, env).inserts
  {
    ForChildrenComplete(children, handles, parents, env, i, k);
  }

  /*
   * Panics: a panic always comes from the extras of the parent of an eligible
   * mesh entity that do not parse.
   */

  lemma {:induction false} ForParentsPanic(c: ChildRow, collider: Collider, parents: seq<ParentRow>, env: Env)
    requires ForParents(c, collider, parents, env).Panicked?
    ensures var o := ForParents(c, collider, parents, env);
            (exists k :: 0 <= k < |parents| && parents[k] == ParentRow(o.entity, o.extras) &&
                  parents[k].entity == c.parent && env.parse(parents[k].extras).Malformed?)
    decreases parents
  {
    var step := ParentStep(c, collider, parents[0], env);
    var rest := ForParents(c, collider, parents[1..], env);
    ThenPanicked(step, rest);
    if !step.Panicked? {
      ForParentsPanic(c, collider, parents[1..], env);
      var o := rest;
      var k :| 0 <= k < |parents[1..]| && parents[1..][k] == ParentRow(o.entity, o.extras) &&
               parents[1..][k].entity == c.parent && env.parse(parents[1..][k].extras).Malformed?;
      assert parents[1..][k] == parents[k + 1];
    }
  }

  lemma {:induction false} ForLoadedPanic(c: ChildRow, handles: seq<MeshHandle>, parents: seq<ParentRow>, env: Env)
    requires ForLoaded(c, handles, parents, env).Panicked?
    ensures var o := ForLoaded(c, handles, parents, env);
            Eligible(c, handles, env) &&
            (exists k :: 0 <= k < |parents| && parents[k] == ParentRow(o.entity, o.extras) &&
                  parents[k].entity == c.parent && env.parse(parents[k].extras).Malformed?)
    decreases handles
  {
    var step := LoadedStep(c, handles[0], parents, env);
    var rest := ForLoaded(c, handles[1..], parents, env);
    ThenPanicked(step, rest);
    if step.Panicked? {
      ForParentsPanic(c, ColliderOf(c, env), parents, env);
    } else {
      ForLoadedPanic(c, handles[1..], parents, env);
    }
  }

  lemma {:induction false} ForChildrenPanic(children: seq<ChildRow>, loaded: seq<MeshHandle>, parents: seq<ParentRow>, env: Env)
    requires ForChildren(children, loaded, parents, env).Panicked?
    ensures var o := ForChildren(children, loaded, parents, env);
            (exists i, k :: 0 <= i < |children| && 0 <= k < |parents| &&
                  Eligible(children[i], loaded, env) && parents[k] == ParentRow(o.entity, o.extras) &&
                  parents[k].entity == children[i].parent && env.parse(parents[k].extras).Malformed?)
    decreases children
  {
    var step := ForLoaded(children[0], loaded, parents, env);
    var rest := ForChildren(children[1..], loaded, parents, env);
    ThenPanicked(step, rest);
    if step.Panicked? {
      ForLoadedPanic(children[0], loaded, parents, env);
      var o := step;
      var k :| 0 <= k < |parents| && parents[k] == ParentRow(o.entity, o.extras) &&
               parents[k].entity == children[0].parent && env.parse(parents[k].extras).Malformed?;
      assert Eligible(children[0], loaded, env);
    } else {
      ForChildrenPanic(children[1..], loaded, parents, env);
      var o := rest;
      var i, k :| 0 <= i < |children[1..]| && 0 <= k < |parents| &&
                  Eligible(children[1..][i], loaded, env) && parents[k] == ParentRow(o.entity, o.extras) &&
                  parents[k].entity == children[1..][i].parent && env.parse(parents[k].extras).Malformed?;
      assert children[1..][i] == children[i + 1];
    }
  }

  /**
   * The system panics exactly when some eligible mesh entity has a parent row
   * whose extras do not parse, and the panic names such a row.
   */
  lemma ControlExtrasPanic(handles: seq<MeshHandle>, children: seq<ChildRow>, parents: seq<ParentRow>, env: Env)
    ensures var o := ControlExtrasSpec(Some(handles), children, parents, env);
            o.Panicked? <==>
            (exists i, k :: 0 <= i < |children| && 0 <= k < |parents| &&
                  Eligible(children[i], handles, env) && parents[k].entity == children[i].parent &&
                  env.parse(parents[k].extras).Malformed?)
    ensures var o := ControlExtrasSpec(Some(handles), children, parents, env);
            o.Panicked? ==>
            (exists i, k :: 0 <= i < |children| && 0 <= k < |parents| &&
                  Eligible(children[i], handles, env) && parents[k] == ParentRow(o.entity, o.extras) &&
                  parents[k].entity == children[i].parent && env.parse(parents[k].extras).Malformed?)
  {
    var o := ControlExtrasSpec(Some(handles), children, parents, env);
    if o.Panicked? {
      ForChildrenPanic(children, handles, parents, env);
    } else if exists i, k :: 0 <= i < |children| && 0 <= k < |parents| &&
                Eligible(children[i], handles, env) && parents[k].entity == children[i].parent &&
                env.parse(parents[k].extras).Malformed? {
      var i, k :| 0 <= i < |children| && 0 <= k < |parents| &&
                  Eligible(children[i], handles, env) && parents[k].entity == children[i].parent &&
                  env.parse(parents[k].extras).Malformed?;
      ForChildrenComplete(children, handles, parents, env, i, k);
    }
  }

  /** The four nested loops of `control_extras`, issuing commands in the order the source does. */
  method ControlExtras(loaded: Option<seq<MeshHandle>>, children: seq<ChildRow>, parents: seq<ParentRow>, env: Env)
    returns (out: Outcome)
    ensures out == ControlExtrasSpec(loaded, children, parents, env)
  {
    if loaded.None? {
      return Commands([]);
    }
    var handles := loaded.value;
    ghost var goal := ForChildren(children, handles, parents, env);
    var acc: seq<Insertion> := [];
    var i := 0;
    ThenUnit(goal);
    while i < |children|
      invariant 0 <= i <= |children|
      invariant Then(Commands(acc), ForChildren(children[i..], handles, parents, env)) == goal
    {
      var c := children[i];
      ghost var rest := ForChildren(children[i + 1..], handles, parents, env);
      assert children[i..][0] == c && children[i..][1..] == children[i + 1..];
      var j := 0;
      while j < |handles|
        invariant 0 <= j <= |handles|
        invariant Then(Commands(acc), Then(ForLoaded(c, handles[j..], parents, env), rest)) == goal
      {
        ghost var later := Then(ForLoaded(c, handles[j + 1..], parents, env), rest);
        assert handles[j..][0] == handles[j] && handles[j..][1..] == handles[j + 1..];
        ThenAssoc(LoadedStep(c, handles[j], parents, env), ForLoaded(c, handles[j + 1..], parents, env), rest);
        if handles[j] == c.mesh && c.mesh in env.meshes && env.build(env.meshes[c.mesh]).Some? {
          var collider := env.build(env.meshes[c.mesh]).value;
          var k := 0;
          while k < |parents|
            invariant 0 <= k <= |parents|
            invariant Then(Commands(acc), Then(ForParents(c, collider, parents[k..], env), later)) == goal
          {
            var p := parents[k];
            assert parents[k..][0] == p && parents[k..][1..] == parents[k + 1..];
            ThenAssoc(ParentStep(c, collider, p, env), ForParents(c, collider, parents[k + 1..], env), later);
            if p.entity == c.parent {
              var parsed := env.parse(p.extras);
              if parsed.Malformed? {
                return Panicked(p.entity, p.extras);
              }
              if ColliderRequested(parsed.value) {
                ThenShift(acc, [Activation(c.parent, collider)], Then(ForParents(c, collider, parents[k + 1..], env), later));
                acc := acc + [Activation(c.parent, collider)];
              } else {
                ThenUnit(Then(ForParents(c, collider, parents[k + 1..], env), later));
              }
            } else {
              ThenUnit(Then(ForParents(c, collider, parents[k + 1..], env), later));
            }
            k := k + 1;
          }
          assert parents[k..] == [];
          ThenUnit(later);
        } else {
          ThenUnit(later);
        }
        j := j + 1;
      }
      assert handles[j..] == [];
      ThenUnit(rest);
      i := i + 1;
    }
    assert children[i..] == [];
    assert acc + [] == acc;
    return Commands(acc);
  }

  /** `Then` is associative. */
  lemma ThenAssoc(a: Outcome, b: Outcome, c: Outcome)
    ensures Then(Then(a, b), c) == Then(a, Then(b, c))
  {
    if a.Commands? && b.Commands? && c.Commands? {
      assert (a.inserts + b.inserts) + c.inserts == a.inserts + (b.inserts + c.inserts);
    }
  }

  /**
   * The environment of the scenario below: meshes 100 and 200, a constructor
   * that always succeeds, and a parser that knows one text.
   */
  function ScenarioEnv(m1: Mesh, m2: Mesh): Env
  {
    Env(map[100 := m1, 200 := m2],
        (m: Mesh) => Some(Collider(m.positions, m.indices)),
        (s: string) => if s == "{\"collider\":\"true\"}" then Parsed(Object(map["collider" := String("true")])) else Malformed)
  }

  /**
   * A three-level scene: a root without extras, its child A (entity 1) with
   * extras `{"collider":"true"}` and one mesh entity (10), and A's child B
   * (entity 2) without extras and with one mesh entity (20). Only A receives
   * a collider, built from its own mesh entity's mesh.
   */
  lemma ScenarioOnlyAnnotatedNodeActivates(m1: Mesh, m2: Mesh)
    ensures var env := ScenarioEnv(m1, m2);
            ControlExtrasSpec(Some([100, 200]),
                              [ChildRow(1, 10, 100), ChildRow(2, 20, 200)],
                              [ParentRow(1, "{\"collider\":\"true\"}")],
                              env)
            == Commands([Activation(1, Collider(m1.positions, m1.indices))])
  {
    var env := ScenarioEnv(m1, m2);
    var parents := [ParentRow(1, "{\"collider\":\"true\"}")];
    var a := ChildRow(1, 10, 100);
    var b := ChildRow(2, 20, 200);
    assert ColliderRequested(Object(map["collider" := String("true")]));
    assert ForParents(a, Collider(m1.positions, m1.indices), parents, env) == Commands([Activation(1, Collider(m1.positions, m1.indices))]);
    assert ForParents(b, Collider(m2.positions, m2.indices), parents, env) == Commands([]);
    assert ForLoaded(a, [200], parents, env) == Commands([]);
    assert ForLoaded(b, [200], parents, env) == Commands([]);
    assert ForLoaded(a, [100, 200], parents, env) == Commands([Activation(1, Collider(m1.positions, m1.indices))]);
    assert ForLoaded(b, [100, 200], parents, env) == Commands([]);
    assert ForChildren([b], [100, 200], parents, env) == Commands([]);
  }
}
