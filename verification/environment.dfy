/** The environment (Environment.js) as far as it concerns the agents: the
    list of agents that each frame updates, the frame gate on the clock's
    delta, and adding and removing agents. Agents live in a store keyed by a
    reference; the list holds references, so one agent can occur in it more
    than once, as the object can in the source. */
module Environment {
  import opened Wrappers
  import opened Seqs
  import opened Clips
  import opened Agents

  /** Frames slower than this do not move the agents. */
  const MaxDelta: real := 0.5

  type Ref = nat

  datatype Env = Env(
    width: nat,
    depth: nat,
    agents: seq<Ref>,
    store: map<Ref, Agent>,
    nextRef: Ref,
    paused: bool,
    frames: nat)

  datatype Position = Position(x: real, y: real, z: real)

  ghost predicate EnvValid(env: Env)
  {
    && (forall i :: 0 <= i < |env.agents| ==> env.agents[i] in env.store)
    && (forall r :: r in env.store ==> r < env.nextRef && Valid(env.store[r]))
  }

  /** An empty environment of the given size. */
  function NewEnv(width: nat, depth: nat): (env: Env)
    ensures EnvValid(env) && env.agents == [] && env.width == width && env.depth == depth
  {
    Env(width, depth, [], map[], 0, false, 0)
  }

  /** `_.random(-size/2, size/2)`: the lower bound plus a whole number of
      units, anywhere up to the upper bound. */
  function SpawnCoordinate(size: nat, pick: nat): (c: real)
    ensures -(size as real) / 2.0 <= c <= (size as real) / 2.0
    ensures (c + (size as real) / 2.0).Floor as real == c + (size as real) / 2.0
    ensures pick <= size ==> c == -(size as real) / 2.0 + pick as real
  {
    -(size as real) / 2.0 + (pick % (size + 1)) as real
  }

  /** `addAgent`: a new, not yet loaded agent at a random spot on the ground,
      appended to the list and handed back. */
  function AddAgent(env: Env, name: string, pickX: nat, pickZ: nat): (r: (Env, Ref, Position))
    ensures r.0.agents == env.agents + [r.1]
    ensures r.1 in r.0.store && r.0.store[r.1] == NewAgent(name)
    ensures EnvValid(env) ==> r.1 !in env.store && forall q :: q in env.store ==> q in r.0.store && r.0.store[q] == env.store[q]
    ensures -(env.width as real) / 2.0 <= r.2.x <= (env.width as real) / 2.0 && r.2.y == 0.0
    ensures -(env.depth as real) / 2.0 <= r.2.z <= (env.depth as real) / 2.0
    ensures EnvValid(env) ==> EnvValid(r.0)
  {
    var ref := env.nextRef;
    var spawn := Position(SpawnCoordinate(env.width, pickX), 0.0, SpawnCoordinate(env.depth, pickZ));
    var env' := env.(agents := env.agents + [ref], store := env.store[ref := NewAgent(name)], nextRef := ref + 1);
    (env', ref, spawn)
  }

  /** The end of `afterLoadMesh` as the source has it: the loaded agent is
      pushed onto the list, where `addAgent` already put it. */
  function LoadAsWritten(env: Env, ref: Ref, anims: seq<Clip>, pick: nat): (r: Result<Env, string>)
    ensures ref in env.store && Load(env.store[ref], anims, pick).Success? ==> r.Success? && r.value.agents == env.agents + [ref]
  {
    if ref !in env.store then Failure("no such agent")
    else
      match Load(env.store[ref], anims, pick)
      case Failure(err) => Failure(err)
      case Success(a) => Success(env.(store := env.store[ref := a], agents := env.agents + [ref]))
  }

  /** Loading completed, the agent left where `addAgent` put it. */
  function LoadAgent(env: Env, ref: Ref, anims: seq<Clip>, pick: nat): (r: Result<Env, string>)
    ensures r.Success? <==> ref in env.store && Load(env.store[ref], anims, pick).Success?
    ensures r.Success? ==> r.value.agents == env.agents && ref in r.value.store && r.value.store[ref].loaded
    ensures r.Success? ==> forall q :: q in env.store && q != ref ==> q in r.value.store && r.value.store[q] == env.store[q]
  {
    if ref !in env.store then Failure("no such agent")
    else
      match Load(env.store[ref], anims, pick)
      case Failure(err) => Failure(err)
      case Success(a) => Success(env.(store := env.store[ref := a]))
  }

  lemma LoadAgentValid(env: Env, ref: Ref, anims: seq<Clip>, pick: nat)
    requires EnvValid(env)
    ensures LoadAgent(env, ref, anims, pick).Success? ==> EnvValid(LoadAgent(env, ref, anims, pick).value)
  {
    if ref in env.store && Load(env.store[ref], anims, pick).Success? {
      var a := Load(env.store[ref], anims, pick).value;
      LoadValid(env.store[ref], anims, pick);
      StoreUpdateValid(env, ref, a, env.agents);
      assert LoadAgent(env, ref, anims, pick).value == env.(store := env.store[ref := a], agents := env.agents);
    }
  }

  /** Replacing one stored agent by a valid one, and the list by one of
      stored references, keeps the environment well formed. */
  lemma StoreUpdateValid(env: Env, ref: Ref, a: Agent, agents: seq<Ref>)
    requires EnvValid(env) && ref in env.store && Valid(a)
    requires forall i :: 0 <= i < |agents| ==> agents[i] in env.store
    ensures EnvValid(env.(store := env.store[ref := a], agents := agents))
  {
    var store := env.store[ref := a];
    forall q | q in store
      ensures q < env.nextRef && Valid(store[q])
    {
      if q != ref {
        assert store[q] == env.store[q];
      }
    }
  }

  /** The number of times the list holds `ref`. */
  function Occurrences(agents: seq<Ref>, ref: Ref): nat
  {
    multiset(agents)[ref]
  }

  /** An agent added and then loaded sits in the list twice as written,
      once as corrected. */
  lemma AddThenLoad(env: Env, name: string, pickX: nat, pickZ: nat, anims: seq<Clip>, pick: nat)
    requires EnvValid(env)
    requires exists i :: 0 <= i < |anims| && Under("idle", anims[i])
    ensures var (added, ref, _) := AddAgent(env, name, pickX, pickZ);
      && Occurrences(LoadAsWritten(added, ref, anims, pick).value.agents, ref) == 2
      && Occurrences(LoadAgent(added, ref, anims, pick).value.agents, ref) == 1
  {
    var (added, ref, _) := AddAgent(env, name, pickX, pickZ);
    assert ref !in env.agents;
    assert Occurrences(env.agents, ref) == 0;
  }

  lemma LoadAsWrittenValid(env: Env, ref: Ref, anims: seq<Clip>, pick: nat)
    requires EnvValid(env)
    ensures LoadAsWritten(env, ref, anims, pick).Success? ==> EnvValid(LoadAsWritten(env, ref, anims, pick).value)
  {
    if ref in env.store && Load(env.store[ref], anims, pick).Success? {
      var a := Load(env.store[ref], anims, pick).value;
      LoadValid(env.store[ref], anims, pick);
      var agents := env.agents + [ref];
      assert forall i :: 0 <= i < |agents| ==> agents[i] in env.store;
      StoreUpdateValid(env, ref, a, agents);
      assert LoadAsWritten(env, ref, anims, pick).value == env.(store := env.store[ref := a], agents := agents);
    }
  }

  /** `_.each(agents, a => a.update(delta))`: every entry of the list, in
      order, updates the agent it refers to. */
  function UpdateAll(store: map<Ref, Agent>, refs: seq<Ref>, delta: Length, pick: nat): (r: Result<(map<Ref, Agent>, seq<Notice>), string>)
    requires forall i :: 0 <= i < |refs| ==> refs[i] in store
    ensures r.Success? ==> r.value.0.Keys == store.Keys
    decreases |refs|
  {
    if |refs| == 0 then Success((store, []))
    else
      match Update(store[refs[0]], delta, pick)
      case Failure(err) => Failure(err)
      case Success(first) =>
        match UpdateAll(store[refs[0] := first.0], refs[1..], delta, pick)
        case Failure(err) => Failure(err)
        case Success(rest) => Success((rest.0, first.1 + rest.1))
  }

  /** Each agent receives one update per occurrence in the list, and no
      other. */
  lemma {:induction false} UpdateAllCounts(store: map<Ref, Agent>, refs: seq<Ref>, delta: Length, pick: nat)
    requires forall i :: 0 <= i < |refs| ==> refs[i] in store
    requires UpdateAll(store, refs, delta, pick).Success?
    ensures forall q :: q in store ==> UpdateTimes(store[q], Occurrences(refs, q), delta, pick) == Success(UpdateAll(store, refs, delta, pick).value.0[q])
    decreases |refs|
  {
    if |refs| > 0 {
      var head := refs[0];
      var first := Update(store[head], delta, pick).value;
      var store' := store[head := first.0];
      var final := UpdateAll(store, refs, delta, pick).value.0;
      assert UpdateAll(store', refs[1..], delta, pick).Success?;
      assert final == UpdateAll(store', refs[1..], delta, pick).value.0;
      UpdateAllCounts(store', refs[1..], delta, pick);
      assert refs == [head] + refs[1..];
      assert multiset(refs) == multiset{head} + multiset(refs[1..]);
      UpdateTimesStep(store[head], Occurrences(refs[1..], head), delta, pick);
      forall q | q in store
        ensures UpdateTimes(store[q], Occurrences(refs, q), delta, pick) == Success(final[q])
      {
        if q == head {
          assert Occurrences(refs, q) == Occurrences(refs[1..], q) + 1;
        } else {
          assert Occurrences(refs, q) == Occurrences(refs[1..], q);
          assert store'[q] == store[q];
        }
      }
    }
  }

  /** A valid store updates without failure and stays valid. */
  lemma {:induction false} UpdateAllValid(store: map<Ref, Agent>, refs: seq<Ref>, delta: Length, pick: nat)
    requires forall i :: 0 <= i < |refs| ==> refs[i] in store
    requires forall r :: r in store ==> Valid(store[r])
    ensures UpdateAll(store, refs, delta, pick).Success?
    ensures forall r :: r in store ==> Valid(UpdateAll(store, refs, delta, pick).value.0[r])
    decreases |refs|
  {
    if |refs| > 0 {
      UpdateValid(store[refs[0]], delta, pick);
      var first := Update(store[refs[0]], delta, pick).value;
      UpdateAllValid(store[refs[0] := first.0], refs[1..], delta, pick);
    }
  }

  /** `render`: nothing at all while paused; otherwise a frame is drawn, and
      the agents are updated only when the frame's delta is below the gate. */
  function Render(env: Env, delta: Length, pick: nat): (r: Result<(Env, seq<Notice>), string>)
    requires forall i :: 0 <= i < |env.agents| ==> env.agents[i] in env.store
    ensures env.paused ==> r == Success((env, []))
    ensures !env.paused && delta >= MaxDelta ==> r == Success((env.(frames := env.frames + 1), []))
    ensures !env.paused && delta < MaxDelta && r.Success? ==>
      && r.value.0.agents == env.agents && r.value.0.frames == env.frames + 1
      && r.value.0.store.Keys == env.store.Keys
  {
    if env.paused then Success((env, []))
    else if delta < MaxDelta then
      match UpdateAll(env.store, env.agents, delta, pick)
      case Failure(err) => Failure(err)
      case Success(updated) => Success((env.(store := updated.0, frames := env.frames + 1), updated.1))
    else Success((env.(frames := env.frames + 1), []))
  }

  /** A frame under the gate gives each agent one update per occurrence in
      the list, never fails, and keeps the environment valid. */
  lemma RenderUpdates(env: Env, delta: Length, pick: nat)
    requires EnvValid(env) && !env.paused && delta < MaxDelta
    ensures Render(env, delta, pick).Success?
    ensures EnvValid(Render(env, delta, pick).value.0)
    ensures forall q :: q in env.store ==> UpdateTimes(env.store[q], Occurrences(env.agents, q), delta, pick) == Success(Render(env, delta, pick).value.0.store[q])
  {
    UpdateAllValid(env.store, env.agents, delta, pick);
    UpdateAllCounts(env.store, env.agents, delta, pick);
  }

  /** As written, a loaded agent is updated twice in every frame under the
      gate, so its timers and its walk run at twice the frame's pace; as
      corrected, once. */
  lemma LoadedAgentUpdates(env: Env, name: string, pickX: nat, pickZ: nat, anims: seq<Clip>, pick: nat, delta: Length, pickFrame: nat)
    requires EnvValid(env) && !env.paused && delta < MaxDelta
    requires exists i :: 0 <= i < |anims| && Under("idle", anims[i])
    ensures var (added, ref, _) := AddAgent(env, name, pickX, pickZ);
      var twice := LoadAsWritten(added, ref, anims, pick).value;
      var once := LoadAgent(added, ref, anims, pick).value;
      && EnvValid(twice) && EnvValid(once)
      && Render(twice, delta, pickFrame).Success? && Render(once, delta, pickFrame).Success?
      && UpdateTimes(twice.store[ref], 2, delta, pickFrame) == Success(Render(twice, delta, pickFrame).value.0.store[ref])
      && UpdateTimes(once.store[ref], 1, delta, pickFrame) == Success(Render(once, delta, pickFrame).value.0.store[ref])
  {
    var (added, ref, _) := AddAgent(env, name, pickX, pickZ);
    AddThenLoad(env, name, pickX, pickZ, anims, pick);
    LoadAsWrittenValid(added, ref, anims, pick);
    LoadAgentValid(added, ref, anims, pick);
    var twice := LoadAsWritten(added, ref, anims, pick).value;
    var once := LoadAgent(added, ref, anims, pick).value;
    RenderUpdates(twice, delta, pickFrame);
    RenderUpdates(once, delta, pickFrame);
  }

  /** Index of the first agent in the list with this name (`_.find`). */
  function FindByName(env: Env, name: string): (r: Option<nat>)
    requires forall i :: 0 <= i < |env.agents| ==> env.agents[i] in env.store
    ensures r.Some? ==> r.value < |env.agents| && env.store[env.agents[r.value]].name == name
    ensures r.Some? ==> forall i :: 0 <= i < r.value ==> env.store[env.agents[i]].name != name
    ensures r.None? ==> forall i :: 0 <= i < |env.agents| ==> env.store[env.agents[i]].name != name
  {
    FindFrom(env, name, 0)
  }

  function FindFrom(env: Env, name: string, from: nat): (r: Option<nat>)
    requires forall i :: 0 <= i < |env.agents| ==> env.agents[i] in env.store
    requires from <= |env.agents|
    requires forall i :: 0 <= i < from ==> env.store[env.agents[i]].name != name
    ensures r.Some? ==> from <= r.value < |env.agents| && env.store[env.agents[r.value]].name == name
    ensures r.Some? ==> forall i :: 0 <= i < r.value ==> env.store[env.agents[i]].name != name
    ensures r.None? ==> forall i :: 0 <= i < |env.agents| ==> env.store[env.agents[i]].name != name
    decreases |env.agents| - from
  {
    if from == |env.agents| then None
    else if env.store[env.agents[from]].name == name then Some(from)
    else FindFrom(env, name, from + 1)
  }

  /** `remove` on the agent: its scheduler is emptied and its mixer dropped. */
  function Retire(a: Agent): (r: Agent)
    ensures Valid(a) ==> Valid(r)
    ensures !r.loaded && r.scheduled == []
  {
    a.(scheduled := [], loaded := false)
  }

  /** Position `i` holds the first agent in the list with this name. */
  ghost predicate FirstNamed(env: Env, name: string, i: int)
    requires forall k :: 0 <= k < |env.agents| ==> env.agents[k] in env.store
  {
    && 0 <= i < |env.agents|
    && env.store[env.agents[i]].name == name
    && forall j :: 0 <= j < i ==> env.store[env.agents[j]].name != name
  }

  /** `removeAgent`: the first agent with that name leaves the list, every
      occurrence of it, and is retired; without such an agent the source's
      `agent.remove` is a TypeError. */
  function RemoveAgent(env: Env, name: string): (r: Result<Env, string>)
    requires forall i :: 0 <= i < |env.agents| ==> env.agents[i] in env.store
    ensures r.Success? <==> exists i :: 0 <= i < |env.agents| && env.store[env.agents[i]].name == name
    ensures r.Success? ==> exists i ::
      && FirstNamed(env, name, i)
      && r.value.agents == Without(env.agents, env.agents[i])
      && r.value.store == env.store[env.agents[i] := Retire(env.store[env.agents[i]])]
  {
    match FindByName(env, name)
    case None => Failure("TypeError: no agent with that name")
    case Some(i) =>
      var ref := env.agents[i];
      assert FirstNamed(env, name, i);
      Success(env.(agents := Without(env.agents, ref), store := env.store[ref := Retire(env.store[ref])]))
  }

  lemma RemoveAgentValid(env: Env, name: string)
    requires EnvValid(env)
    ensures RemoveAgent(env, name).Success? ==> EnvValid(RemoveAgent(env, name).value)
  {
    if RemoveAgent(env, name).Success? {
      var i := FindByName(env, name).value;
      var ref := env.agents[i];
      var kept := Without(env.agents, ref);
      forall j | 0 <= j < |kept|
        ensures kept[j] in env.store
      {
        assert kept[j] in env.agents;
      }
      StoreUpdateValid(env, ref, Retire(env.store[ref]), kept);
      assert RemoveAgent(env, name).value == env.(store := env.store[ref := Retire(env.store[ref])], agents := kept);
    }
  }
}
