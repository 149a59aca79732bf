/** One agent (Agent.js) as a record: its discrete state and the two flags
    derived from it, the current animation clip, its scheduler, and its walk
    towards a target. Geometry is reduced to the distance left to the target;
    the callbacks handed in from outside are opaque tags that come back out as
    notices. Random choices (`_.sample`) are a `pick` index supplied by the
    caller. */
module Agents {
  import opened Wrappers
  import opened Seqs
  import opened Clips
  import opened Scheduler

  const ActionCrossFade: real := 0.1
  const Speed: real := 5.0
  /** An agent closer to its target than this has arrived. */
  const ArrivalRadius: real := 0.05

  datatype State = Idle | Walking | InTransit | Chatting | Working

  /** The key under which a state's clips are grouped. */
  function StateName(s: State): string
  {
    match s
    case Idle => "idle"
    case Walking => "walking"
    case InTransit => "intransit"
    case Chatting => "chatting"
    case Working => "working"
  }

  const MovingStates: seq<State> := [Walking, InTransit]
  const EngagedStates: seq<State> := [Chatting, Working, InTransit]

  /** What a scheduled event does when it fires: pick a new clip among
      `clips`, or call a callback from outside the agent. */
  datatype Task = Reselect(clips: seq<Clip>) | External(tag: nat)

  /** A callback of outside code that the agent invoked. */
  datatype Notice = Called(tag: nat) | Arrived(callback: nat)

  type Length = r: real | r >= 0.0

  datatype Agent = Agent(
    name: string,
    loaded: bool,
    actions: Actions,
    state: State,
    moving: bool,
    engaged: bool,
    action: Option<Clip>,
    fadingFrom: Option<Clip>,
    scheduled: seq<Event<Task>>,
    nextEventId: nat,
    scheduledAction: Option<nat>,
    distance: Length,
    goToCallback: Option<nat>)

  /** What every agent keeps true between calls. */
  ghost predicate Valid(a: Agent)
  {
    && a.moving == (a.state in MovingStates)
    && a.engaged == (a.state in EngagedStates)
    && (forall k :: k in a.actions ==> |a.actions[k]| > 0)
    && (a.loaded ==> "idle" in a.actions && a.action.Some?)
    && SchedulerOk(a.scheduled, a.nextEventId, a.scheduledAction)
  }

  /** The scheduler part of `Valid`: distinct ids below the next one to hand
      out, and a reselection only as the `current` one, over a real choice. */
  ghost predicate SchedulerOk(events: seq<Event<Task>>, next: nat, current: Option<nat>)
  {
    && UniqueIds(events)
    && (forall e :: e in events ==> e.id < next)
    && (forall e :: e in events && e.task.Reselect? ==> current == Some(e.id) && |e.task.clips| > 1)
  }

  ghost predicate NoReselect(events: seq<Event<Task>>)
  {
    forall e :: e in events ==> !e.task.Reselect?
  }

  /** Withdrawing the current reselection leaves none. */
  lemma Withdraw(events: seq<Event<Task>>, next: nat, current: Option<nat>)
    requires SchedulerOk(events, next, current)
    ensures var kept := if current.Some? then Cancel(events, current.value) else events;
      UniqueIds(kept) && (forall e :: e in kept ==> e.id < next) && NoReselect(kept)
  {
    if current.Some? {
      CancelUniqueIds(events, current.value);
    }
  }

  /** Queueing one reselection with a fresh id onto a list without one. */
  lemma AddReselection(kept: seq<Event<Task>>, next: nat, clips: seq<Clip>, timeout: real)
    requires UniqueIds(kept) && (forall e :: e in kept ==> e.id < next) && NoReselect(kept)
    requires |clips| > 1
    ensures SchedulerOk(kept + [Event(next, Reselect(clips), timeout)], next + 1, Some(next))
  {
    forall i | 0 <= i < |kept|
      ensures kept[i].id != next
    {
      assert kept[i] in kept;
    }
    UniqueSnoc(kept, Event(next, Reselect(clips), timeout));
  }

  /** A tick keeps the scheduler well formed, and what it fires came from it. */
  lemma TickOk(events: seq<Event<Task>>, next: nat, current: Option<nat>, delta: real)
    requires SchedulerOk(events, next, current)
    ensures SchedulerOk(Tick(events, delta).0, next, current)
    ensures forall e :: e in Tick(events, delta).1 && e.task.Reselect? ==> |e.task.clips| > 1
  {
    var lowered := Elapse(events, delta);
    FilterUniqueIds(lowered, IsPending);
    forall e | e in lowered
      ensures e.id < next && (e.task.Reselect? ==> current == Some(e.id) && |e.task.clips| > 1)
    {
      var i :| 0 <= i < |lowered| && lowered[i] == e;
      assert events[i] in events;
    }
  }

  /** The constructor: nothing loaded, nothing scheduled. */
  function NewAgent(name: string): (a: Agent)
    ensures Valid(a) && !a.loaded && a.name == name
    ensures a.scheduled == [] && a.scheduledAction == None && a.action == None
  {
    Agent(name, false, map[], Idle, false, false, None, None, [], 0, None, 0.0, None)
  }

  /** `setAction`: the new clip becomes current, cross-fading from the old
      one when there was one. */
  function SetAction(a: Agent, clip: Clip): (r: Agent)
    ensures r.action == Some(clip) && r.fadingFrom == a.action
    ensures r.(action := a.action, fadingFrom := a.fadingFrom) == a
  {
    a.(action := Some(clip), fadingFrom := a.action)
  }

  /** `_scheduleNextAction`: withdraw the previous reselection, then, when
      there is a choice of clips, schedule one reselection for when the
      current clip has played. */
  function ScheduleNextAction(a: Agent, clips: seq<Clip>): (r: Agent)
    requires a.action.Some?
    ensures |clips| <= 1 ==> r.nextEventId == a.nextEventId && r.scheduledAction == a.scheduledAction
    ensures |clips| > 1 ==> r.nextEventId == a.nextEventId + 1 && r.scheduledAction == Some(a.nextEventId)
    ensures |clips| > 1 ==> |r.scheduled| > 0 && r.scheduled[|r.scheduled| - 1] == Event(a.nextEventId, Reselect(clips), a.action.value.duration + 0.05)
    ensures r.(scheduled := a.scheduled, nextEventId := a.nextEventId, scheduledAction := a.scheduledAction) == a
  {
    var kept := if a.scheduledAction.Some? then Cancel(a.scheduled, a.scheduledAction.value) else a.scheduled;
    if |clips| > 1 then
      var (events, e) := Schedule(kept, a.nextEventId, Reselect(clips), a.action.value.duration + ActionCrossFade / 2.0);
      a.(scheduled := events, nextEventId := a.nextEventId + 1, scheduledAction := Some(e.id))
    else
      a.(scheduled := kept)
  }

  /** The previous reselection is withdrawn and every other pending event
      kept; with more than one clip the new reselection comes last. */
  lemma ScheduleNextActionEvents(a: Agent, clips: seq<Clip>)
    requires a.action.Some?
    ensures var r := ScheduleNextAction(a, clips);
      && (a.scheduledAction.Some? ==> forall e :: e in r.scheduled ==> e.id != a.scheduledAction.value || e.id == a.nextEventId)
      && (|clips| <= 1 ==> forall e :: e in r.scheduled <==> e in a.scheduled && Some(e.id) != a.scheduledAction)
      && (|clips| > 1 ==> forall e :: e in r.scheduled[..|r.scheduled| - 1] <==> e in a.scheduled && Some(e.id) != a.scheduledAction)
  {
    var kept := if a.scheduledAction.Some? then Cancel(a.scheduled, a.scheduledAction.value) else a.scheduled;
    var r := ScheduleNextAction(a, clips);
    if |clips| > 1 {
      assert r.scheduled == kept + [Event(a.nextEventId, Reselect(clips), a.action.value.duration + ActionCrossFade / 2.0)];
      assert r.scheduled[..|r.scheduled| - 1] == kept;
    } else {
      assert r.scheduled == kept;
    }
  }

  /** `setState`: the flags follow the state; a clip is sampled from the
      state's action and its reselection scheduled, or, for a state without
      an action, the first idle clip is played and the scheduler is left
      alone. Sampling an empty list, or a missing idle action, is the
      source's TypeError. */
  function SetState(a: Agent, s: State, pick: nat): (r: Result<Agent, string>)
    ensures r.Success? <==>
      (StateName(s) in a.actions && |a.actions[StateName(s)]| > 0) ||
      (StateName(s) !in a.actions && "idle" in a.actions && |a.actions["idle"]| > 0)
    ensures r.Success? ==> r.value.state == s
    ensures r.Success? ==> (r.value.moving <==> s == Walking || s == InTransit)
    ensures r.Success? ==> (r.value.engaged <==> s == Chatting || s == Working || s == InTransit)
    ensures r.Success? && StateName(s) in a.actions ==> r.value.action.Some? && r.value.action.value in a.actions[StateName(s)]
    ensures r.Success? && StateName(s) !in a.actions ==> r.value.action == Some(a.actions["idle"][0])
    ensures r.Success? && StateName(s) !in a.actions ==> r.value.scheduled == a.scheduled && r.value.scheduledAction == a.scheduledAction
    ensures r.Success? ==> r.value.fadingFrom == a.action
    ensures r.Success? ==> r.value.actions == a.actions && r.value.loaded == a.loaded && r.value.distance == a.distance && r.value.goToCallback == a.goToCallback
  {
    var flagged := a.(state := s, moving := s in MovingStates, engaged := s in EngagedStates);
    var key := StateName(s);
    if key in a.actions then
      var clips := a.actions[key];
      if |clips| == 0 then Failure("TypeError: sampled no clip")
      else Success(ScheduleNextAction(SetAction(flagged, clips[pick % |clips|]), clips))
    else if "idle" in a.actions && |a.actions["idle"]| > 0 then
      Success(SetAction(flagged, a.actions["idle"][0]))
    else
      Failure("TypeError: no idle clip")
  }

  /** Only the current reselection can be pending: at most one event of the
      list reselects a clip. */
  lemma OneReselection(a: Agent)
    requires Valid(a)
    ensures forall i, j :: 0 <= i < |a.scheduled| && 0 <= j < |a.scheduled| && a.scheduled[i].task.Reselect? && a.scheduled[j].task.Reselect? ==> i == j
  {
    forall i, j | 0 <= i < |a.scheduled| && 0 <= j < |a.scheduled| && a.scheduled[i].task.Reselect? && a.scheduled[j].task.Reselect?
      ensures i == j
    {
      assert a.scheduled[i] in a.scheduled && a.scheduled[j] in a.scheduled;
    }
  }

  lemma ScheduleNextActionValid(a: Agent, clips: seq<Clip>)
    requires Valid(a) && a.action.Some?
    ensures Valid(ScheduleNextAction(a, clips))
  {
    var kept := if a.scheduledAction.Some? then Cancel(a.scheduled, a.scheduledAction.value) else a.scheduled;
    var r := ScheduleNextAction(a, clips);
    Withdraw(a.scheduled, a.nextEventId, a.scheduledAction);
    if |clips| > 1 {
      var timeout := a.action.value.duration + ActionCrossFade / 2.0;
      AddReselection(kept, a.nextEventId, clips, timeout);
      assert r.scheduled == kept + [Event(a.nextEventId, Reselect(clips), timeout)];
    } else {
      assert r.scheduled == kept;
    }
    assert SchedulerOk(r.scheduled, r.nextEventId, r.scheduledAction);
    ValidFrame(a, r);
  }

  /** Validity depends on the scheduler fields only through `SchedulerOk`. */
  lemma ValidFrame(a: Agent, r: Agent)
    requires Valid(a)
    requires r.(scheduled := a.scheduled, nextEventId := a.nextEventId, scheduledAction := a.scheduledAction) == a
    requires SchedulerOk(r.scheduled, r.nextEventId, r.scheduledAction)
    ensures Valid(r)
  {
  }

  /** A valid agent stays valid through `setState`, and a loaded one always
      has a clip to play. */
  lemma SetStateValid(a: Agent, s: State, pick: nat)
    requires Valid(a)
    ensures a.loaded ==> SetState(a, s, pick).Success?
    ensures SetState(a, s, pick).Success? ==> Valid(SetState(a, s, pick).value)
  {
    var key := StateName(s);
    var flagged := a.(state := s, moving := s in MovingStates, engaged := s in EngagedStates);
    if key in a.actions && |a.actions[key]| > 0 {
      var clips := a.actions[key];
      ScheduleNextActionValid(SetAction(flagged, clips[pick % |clips|]), clips);
    }
  }

  /** `goTo`: walk towards a target at `distance`, replacing any earlier
      arrival callback. */
  function GoTo(a: Agent, distance: Length, callback: nat, pick: nat): (r: Result<Agent, string>)
    ensures r.Success? <==> SetState(a, Walking, pick).Success?
    ensures r.Success? ==> r.value.state == Walking && r.value.moving
    ensures r.Success? ==> r.value.goToCallback == Some(callback) && r.value.distance == distance
  {
    match SetState(a, Walking, pick)
    case Failure(err) => Failure(err)
    case Success(walking) => Success(walking.(distance := distance, goToCallback := Some(callback)))
  }

  lemma GoToValid(a: Agent, distance: Length, callback: nat, pick: nat)
    requires Valid(a)
    ensures a.loaded ==> GoTo(a, distance, callback, pick).Success?
    ensures GoTo(a, distance, callback, pick).Success? ==> Valid(GoTo(a, distance, callback, pick).value)
  {
    SetStateValid(a, Walking, pick);
  }

  /** Still farther from the target than the arrival radius. */
  predicate Far(d: real)
  {
    d * d > ArrivalRadius * ArrivalRadius
  }

  /** The distance left after one step of length `step` towards the target,
      stopping on the target rather than passing it. */
  function Advance(d: Length, step: Length): (r: Length)
    ensures r <= d
    ensures r == 0.0 || r == d - step
    ensures step <= d ==> r == d - step
  {
    if step >= d then 0.0 else d - step
  }

  /** The distance left after one step in the source: a full step along the
      line to the target, which passes the target when the step is longer
      than the distance. */
  function AdvanceAsWritten(d: Length, step: Length): (r: Length)
    ensures r == d - step || r == step - d
    ensures step <= d ==> r == Advance(d, step)
  {
    if step >= d then step - d else d - step
  }

  /** The distance left after `n` frames of steps of length `step`, the
      walk ending once the agent has arrived. */
  function Approach(d: Length, step: Length, n: nat): Length
    decreases n
  {
    if n == 0 || !Far(d) then d else Approach(Advance(d, step), step, n - 1)
  }

  function ApproachAsWritten(d: Length, step: Length, n: nat): Length
    decreases n
  {
    if n == 0 || !Far(d) then d else ApproachAsWritten(AdvanceAsWritten(d, step), step, n - 1)
  }

  /** The distance after one frame of the source: a full step while far,
      no step once arrived. */
  function AfterFrame(d: Length, step: Length): Length
  {
    if Far(d) then AdvanceAsWritten(d, step) else d
  }

  /** One frame of the full-step iteration: a far agent steps, a near one
      stays where it is for good. */
  lemma ApproachAsWrittenStep(d: Length, next: Length, step: Length, n: nat)
    requires n > 0 && next == AfterFrame(d, step)
    ensures ApproachAsWritten(d, step, n) == ApproachAsWritten(next, step, n - 1)
  {
    if !Far(d) {
      assert ApproachAsWritten(d, step, n - 1) == d;
    }
  }

  /** With the step clamped, an agent arrives once the frames' steps cover
      the distance. */
  lemma {:induction false} CorrectedArrives(d: Length, step: Length, n: nat)
    requires n as real * step >= d
    ensures !Far(Approach(d, step, n))
    decreases n
  {
    if n > 0 && Far(d) {
      CorrectedArrives(Advance(d, step), step, n - 1);
    }
  }

  /** At 30 frames a second (a step of 1/6) an agent 0.06 from its target
      overshoots to 0.1066..., then back to 0.06, and never arrives. */
  lemma {:induction false} AsWrittenNeverArrives(n: nat)
    ensures ApproachAsWritten(3.0 / 50.0, 1.0 / 6.0, n) == if n % 2 == 0 then 3.0 / 50.0 else 8.0 / 75.0
    ensures Far(ApproachAsWritten(3.0 / 50.0, 1.0 / 6.0, n))
  {
    var near, far, step := 3.0 / 50.0, 8.0 / 75.0, 1.0 / 6.0;
    assert Far(near) && Far(far);
    assert AdvanceAsWritten(near, step) == far;
    if n >= 2 {
      assert AdvanceAsWritten(far, step) == near;
      AsWrittenNeverArrives(n - 2);
      assert ApproachAsWritten(far, step, n - 1) == ApproachAsWritten(near, step, n - 2);
    }
  }

  /** `moveTowardsTarget`: far from the target, one full step along the line
      to it and nothing else; at the target, the agent goes idle and the
      arrival callback, if any, is called once and dropped. */
  function MoveTowardsTarget(a: Agent, delta: Length, pick: nat): (r: Result<(Agent, seq<Notice>), string>)
    ensures Far(a.distance) ==> r.Success? && r.value.1 == [] && r.value.0 == a.(distance := AdvanceAsWritten(a.distance, delta * Speed))
    ensures !Far(a.distance) ==> (r.Success? <==> SetState(a, Idle, pick).Success?)
    ensures !Far(a.distance) && r.Success? ==> r.value.0.state == Idle && !r.value.0.moving && r.value.0.goToCallback == None
    ensures !Far(a.distance) && r.Success? ==> r.value.0.distance == a.distance && r.value.0.loaded == a.loaded
    ensures !Far(a.distance) && r.Success? ==> r.value.1 == if a.goToCallback.Some? then [Arrived(a.goToCallback.value)] else []
  {
    if Far(a.distance) then
      Success((a.(distance := AdvanceAsWritten(a.distance, delta * Speed)), []))
    else
      match SetState(a, Idle, pick)
      case Failure(err) => Failure(err)
      case Success(idle) =>
        var notices := if a.goToCallback.Some? then [Arrived(a.goToCallback.value)] else [];
        Success((idle.(goToCallback := None), notices))
  }

  /** The outside callbacks among `fired`, in order. */
  function CalledTags(fired: seq<Event<Task>>): seq<Notice>
  {
    if |fired| == 0 then []
    else (if fired[0].task.External? then [Called(fired[0].task.tag)] else []) + CalledTags(fired[1..])
  }

  /** The callbacks of the events a tick fired, in list order: a reselection
      sets a sampled clip, an outside callback is reported. */
  function Fire(a: Agent, fired: seq<Event<Task>>, pick: nat): (r: Result<(Agent, seq<Notice>), string>)
    ensures r.Success? <==> forall e :: e in fired && e.task.Reselect? ==> |e.task.clips| > 0
    ensures r.Success? ==> r.value.1 == CalledTags(fired)
    ensures r.Success? ==> r.value.0.(action := a.action, fadingFrom := a.fadingFrom) == a
    ensures r.Success? && (forall e :: e in fired ==> e.task.External?) ==> r.value.0 == a
    ensures r.Success? ==> forall e :: e in fired && e.task.Reselect? ==> r.value.0.action.Some?
    ensures r.Success? && a.action.Some? ==> r.value.0.action.Some?
    decreases |fired|
  {
    if |fired| == 0 then Success((a, []))
    else
      var rest := fired[1..];
      assert forall e :: e in rest ==> e in fired;
      match fired[0].task
      case External(tag) =>
        (match Fire(a, rest, pick)
         case Failure(err) => Failure(err)
         case Success(after) => Success((after.0, [Called(tag)] + after.1)))
      case Reselect(clips) =>
        if |clips| == 0 then Failure("TypeError: sampled no clip")
        else Fire(SetAction(a, clips[pick % |clips|]), rest, pick)
  }

  /** `update`: nothing before the mesh is loaded; then the scheduler ticks
      (its callbacks run), and a moving agent steps towards its target. */
  function Update(a: Agent, delta: Length, pick: nat): (r: Result<(Agent, seq<Notice>), string>)
    ensures !a.loaded ==> r == Success((a, []))
    ensures a.loaded && !a.moving && r.Success? ==>
      && r.value.0.scheduled == Tick(a.scheduled, delta).0
      && r.value.1 == CalledTags(Tick(a.scheduled, delta).1)
    ensures a.loaded && a.moving && Far(a.distance) && r.Success? ==>
      && r.value.0.scheduled == Tick(a.scheduled, delta).0
      && r.value.0.distance == AdvanceAsWritten(a.distance, delta * Speed)
      && r.value.1 == CalledTags(Tick(a.scheduled, delta).1)
    ensures a.loaded && a.moving && !Far(a.distance) && r.Success? ==>
      && r.value.0.state == Idle && !r.value.0.moving && r.value.0.goToCallback == None
      && r.value.0.distance == a.distance
      && r.value.1 == CalledTags(Tick(a.scheduled, delta).1) + (if a.goToCallback.Some? then [Arrived(a.goToCallback.value)] else [])
  {
    if !a.loaded then Success((a, []))
    else
      var (remaining, fired) := Tick(a.scheduled, delta);
      match Fire(a.(scheduled := remaining), fired, pick)
      case Failure(err) => Failure(err)
      case Success(ticked) =>
        if ticked.0.moving then
          match MoveTowardsTarget(ticked.0, delta, pick)
          case Failure(err) => Failure(err)
          case Success(moved) => Success((moved.0, ticked.1 + moved.1))
        else Success(ticked)
  }

  /** A valid loaded agent's update never fails and keeps the agent valid;
      its scheduler is what the tick left of it. */
  lemma UpdateValid(a: Agent, delta: Length, pick: nat)
    requires Valid(a)
    ensures Update(a, delta, pick).Success?
    ensures Valid(Update(a, delta, pick).value.0)
  {
    if a.loaded {
      var (remaining, fired) := Tick(a.scheduled, delta);
      TickOk(a.scheduled, a.nextEventId, a.scheduledAction, delta);
      var b := a.(scheduled := remaining);
      assert Valid(b);
      var ticked := Fire(b, fired, pick);
      assert ticked.Success?;
      var c := ticked.value.0;
      assert Valid(c);
      if c.moving && !Far(c.distance) {
        SetStateValid(c, Idle, pick);
      }
    }
  }

  /** `update` applied `n` times in a row. */
  function UpdateTimes(a: Agent, n: nat, delta: Length, pick: nat): Result<Agent, string>
    decreases n
  {
    if n == 0 then Success(a)
    else
      match Update(a, delta, pick)
      case Failure(err) => Failure(err)
      case Success(next) => UpdateTimes(next.0, n - 1, delta, pick)
  }

  lemma UpdateTimesStep(a: Agent, n: nat, delta: Length, pick: nat)
    requires Update(a, delta, pick).Success?
    ensures UpdateTimes(a, n + 1, delta, pick) == UpdateTimes(Update(a, delta, pick).value.0, n, delta, pick)
  {
  }

  /** A loaded, well-formed agent that walks, or has already arrived. */
  ghost predicate Walker(a: Agent)
  {
    Valid(a) && a.loaded && (a.moving || !Far(a.distance))
  }

  /** One update of a walker: a far walker takes one full step, otherwise
      the distance stays and the agent stands still; either way it is still
      a walker. */
  lemma UpdateWalkStep(a: Agent, delta: Length, pick: nat)
    requires Walker(a)
    ensures Update(a, delta, pick).Success?
    ensures var b := Update(a, delta, pick).value.0;
      && Walker(b)
      && b.distance == AfterFrame(a.distance, delta * Speed)
  {
    UpdateValid(a, delta, pick);
  }

  /** One update as a step from agent to agent, the notices dropped. */
  function Frame(a: Agent, delta: Length, pick: nat): Result<Agent, string>
  {
    match Update(a, delta, pick)
    case Failure(err) => Failure(err)
    case Success(next) => Success(next.0)
  }

  /** `n` steps of `step` in a row, stopping at the first failure. */
  function Iterate<T>(step: T -> Result<T, string>, x: T, n: nat): Result<T, string>
    decreases n
  {
    if n == 0 then Success(x)
    else
      match step(x)
      case Failure(err) => Failure(err)
      case Success(next) => Iterate(step, next, n - 1)
  }

  /** `step` keeps `inv` and moves `dist` as one frame of the source does
      with steps of length `s`. */
  ghost predicate WalksLike<T(!new)>(step: T -> Result<T, string>, inv: T -> bool, dist: T -> Length, s: Length)
  {
    forall x :: inv(x) ==> step(x).Success? && inv(step(x).value) && dist(step(x).value) == AfterFrame(dist(x), s)
  }

  /** Any such step, iterated, walks the distance down as `ApproachAsWritten`. */
  lemma {:induction false} IterateAsWritten<T(!new)>(step: T -> Result<T, string>, inv: T -> bool, dist: T -> Length, s: Length, x: T, n: nat)
    requires WalksLike(step, inv, dist, s) && inv(x)
    ensures Iterate(step, x, n).Success?
    ensures dist(Iterate(step, x, n).value) == ApproachAsWritten(dist(x), s, n)
    decreases n
  {
    if n > 0 {
      var next := step(x).value;
      IterateAsWritten(step, inv, dist, s, next, n - 1);
      ApproachAsWrittenStep(dist(x), dist(next), s, n);
    }
  }

  /** `UpdateTimes` is the iteration of `Frame`. */
  lemma {:induction false} UpdateTimesIterate(step: Agent -> Result<Agent, string>, a: Agent, n: nat, delta: Length, pick: nat)
    requires forall x :: step(x) == Frame(x, delta, pick)
    ensures UpdateTimes(a, n, delta, pick) == Iterate(step, a, n)
    decreases n
  {
    if n > 0 && Update(a, delta, pick).Success? {
      UpdateTimesIterate(step, Update(a, delta, pick).value.0, n - 1, delta, pick);
    }
  }

  /** `Frame` moves a walker as one frame of the source does. */
  lemma FrameWalks(step: Agent -> Result<Agent, string>, inv: Agent -> bool, dist: Agent -> Length, delta: Length, pick: nat)
    requires forall x :: step(x) == Frame(x, delta, pick)
    requires forall x :: inv(x) == Walker(x)
    requires forall x :: dist(x) == x.distance
    ensures WalksLike(step, inv, dist, delta * Speed)
  {
    forall x | inv(x)
      ensures step(x).Success? && inv(step(x).value) && dist(step(x).value) == AfterFrame(dist(x), delta * Speed)
    {
      UpdateWalkStep(x, delta, pick);
    }
  }

  /** Frame after frame with the same delta, the walk of an agent is the
      full-step iteration `ApproachAsWritten`, so the overshoot of the source
      is what the modelled agent does. */
  lemma WalkAsWritten(a: Agent, delta: Length, pick: nat, n: nat)
    requires Walker(a)
    ensures UpdateTimes(a, n, delta, pick).Success?
    ensures UpdateTimes(a, n, delta, pick).value.distance == ApproachAsWritten(a.distance, delta * Speed, n)
  {
    var step := x => Frame(x, delta, pick);
    var inv := x => Walker(x);
    var dist := (x: Agent) => x.distance;
    UpdateTimesIterate(step, a, n, delta, pick);
    FrameWalks(step, inv, dist, delta, pick);
    IterateAsWritten(step, inv, dist, delta * Speed, a, n);
  }

  /** A loaded agent walking from 0.06 away, at 30 frames a second, never
      comes within the arrival radius, however many frames pass. */
  lemma AgentNeverArrives(a: Agent, pick: nat, n: nat)
    requires Valid(a) && a.loaded && a.moving && a.distance == 3.0 / 50.0
    ensures UpdateTimes(a, n, 1.0 / 30.0, pick).Success?
    ensures Far(UpdateTimes(a, n, 1.0 / 30.0, pick).value.distance)
  {
    WalkAsWritten(a, 1.0 / 30.0, pick, n);
    assert 1.0 / 30.0 * Speed == 1.0 / 6.0;
    AsWrittenNeverArrives(n);
  }

  /** Notices of outside callbacks only: no arrival among them. */
  predicate NoArrival(notices: seq<Notice>)
  {
    forall n :: n in notices ==> n.Called?
  }

  lemma {:induction false} CalledTagsNoArrival(fired: seq<Event<Task>>)
    ensures NoArrival(CalledTags(fired))
    decreases |fired|
  {
    if |fired| > 0 {
      CalledTagsNoArrival(fired[1..]);
    }
  }

  /** The arrival frame leaves the agent idle, not moving and without a
      callback, so the next update does not walk and reports no arrival. */
  lemma ArrivalOnce(a: Agent, delta: Length, pick: nat, pick': nat)
    requires Valid(a) && a.loaded && a.moving && !Far(a.distance)
    ensures Update(a, delta, pick).Success?
    ensures var b := Update(a, delta, pick).value.0;
      && !b.moving && b.goToCallback == None
      && Update(b, delta, pick').Success?
      && NoArrival(Update(b, delta, pick').value.1)
  {
    UpdateValid(a, delta, pick);
    var b := Update(a, delta, pick).value.0;
    UpdateValid(b, delta, pick');
    CalledTagsNoArrival(Tick(b.scheduled, delta).1);
  }

  /** `afterLoadMesh`, apart from the scene and list bookkeeping: group the
      clips into actions, then go idle. Without an idle clip this is the
      source's TypeError. */
  function Load(a: Agent, anims: seq<Clip>, pick: nat): (r: Result<Agent, string>)
    ensures r.Success? <==> exists i :: 0 <= i < |anims| && Under("idle", anims[i])
    ensures r.Success? ==> r.value.loaded && r.value.actions == SetupActions(anims) && r.value.state == Idle && !r.value.moving
  {
    SetState(a.(actions := SetupActions(anims), loaded := true), Idle, pick)
  }

  lemma LoadValid(a: Agent, anims: seq<Clip>, pick: nat)
    requires Valid(a)
    ensures Load(a, anims, pick).Success? ==> Valid(Load(a, anims, pick).value)
  {
    var b := a.(actions := SetupActions(anims), loaded := true);
    if Load(a, anims, pick).Success? {
      var idle := b.actions["idle"];
      var c := b.(state := Idle, moving := Idle in MovingStates, engaged := Idle in EngagedStates);
      ScheduleNextActionValid(SetAction(c, idle[pick % |idle|]), idle);
    }
  }

  /** `schedule` called from outside the agent: the callback is queued and
      the agent stays valid. */
  function ScheduleCallback(a: Agent, tag: nat, timeout: real): (r: Agent)
    ensures |r.scheduled| == |a.scheduled| + 1 && r.scheduled[..|a.scheduled|] == a.scheduled
    ensures r.scheduled[|a.scheduled|] == Event(a.nextEventId, External(tag), timeout)
    ensures Valid(a) ==> Valid(r)
  {
    var (events, _) := Schedule(a.scheduled, a.nextEventId, External(tag), timeout);
    a.(scheduled := events, nextEventId := a.nextEventId + 1)
  }
}
