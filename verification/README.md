# Conversation playback with animated agents, in Dafny

The system replays Twitter conversations as a small 3-D scene. There are two parts.

A collector (`collect.py`) gathers one user's timeline and mentions. For a bounded number of rounds it fetches the parent tweets that are still missing. It then splits the tweets into:

- thread roots;
- a reply index that maps each parent id to its direct replies, in order.

A browser player (`main.js`) gives each participant an agent. It replays every root's thread in turn:

- everyone else in the conversation walks over to the originator;
- each tweet is shown as a thought bubble over its author for four seconds.

Each agent (`src/Agent.js`) works as follows:

- It is a small state machine: idle, walking, in transit, chatting or working.
- Its animation clips are grouped into actions by name.
- It has a countdown scheduler that, among other things, reselects a random clip when the current one has played.
- It walks towards a target at constant speed.

The environment (`src/Environment.js`) keeps the agent list. Each frame it updates every agent, but only when the frame's delta is below 0.5 seconds. A delta of exactly 0.5 only draws.

The model is split into these modules:

- `Wrappers`: `Option` and `Result`.
- `Seqs`: sequence helpers.
  - `Filter` mirrors underscore's `_.filter`.
  - `Uniq` mirrors `_.uniq`.
  - `Without` mirrors `_.without`.
  - `Flatten` mirrors `_.flatten`.
- `Messages`: tweets and the reply index.
- `Threads`: `get_thread` and `participants`, with their reachability, uniqueness and order properties.
- `Playback`: `play_convos`, `start_convo` and `tweet`, as a state machine. Each callback becomes an event. The callback chain becomes an explicit trace of agent commands.
- `Scheduler`: an agent's `schedule` and `tickScheduled`.
- `Clips`: `_setupActions` and `_setupAction`, which group clips by lower-cased name prefix.
- `Agents`: `setState`, `setAction`, `_scheduleNextAction`, `goTo`, `moveTowardsTarget`, `update` and the loading step of `afterLoadMesh`.
- `Environment`: `addAgent`, `render`, `removeAgent` and the agent list.
- `Collect`: `get_users`, `lookup_tweets`, the fetch loop and the grouping loop of `assemble_conversations`.

Everything outside the program becomes a parameter:

- The Twitter API calls are functions passed in.
- Random choices (`_.sample`, `_.random`) are a `pick` index.
- Frame time is a `delta`.
- Callbacks handed to an agent are opaque tags. The agent reports them back as notices when it calls them.

In places the JavaScript would throw a `TypeError`, for example when sampling an empty list or calling a method on `undefined`. The model returns a `Failure` there.

## Model

| member | source | states |
|---|---|---|
| Threads.Subthreads | main.js:76-77 | There is one sub-thread per direct reply, in reply order. Each one is that reply's own thread. |
| Threads.ThreadIsDescendants | main.js:74-79 | On an acyclic index, a tweet is in the thread of `root` exactly when a chain of replies leads from `root` to it. |
| Threads.ThreadSound | main.js:74-79 | Every tweet in the thread descends from the root through a chain of replies. |
| Threads.ThreadComplete | main.js:74-79 | The last tweet of every reply chain from the root is in the thread. |
| Threads.ThreadExcludesRoot | main.js:74-79 | On an acyclic index, the thread never contains the root itself. |
| Threads.ThreadUnique | main.js:74-79 | When every tweet is listed under at most one parent, once, no tweet id occurs twice in the thread. |
| Threads.RepliesFirst | main.js:75-78 | The direct replies occupy exactly the first positions of the thread. Every deeper descendant comes after all of them. |
| Threads.ChildrenFirst | main.js:74-79 | On a concrete index, the root's second reply comes before the first reply's own reply. |
| Threads.Conversation | main.js:41 | The conversation is non-empty and starts with the root. No later entry has the root's id. |
| Threads.Participants | main.js:82-84 | Authors are listed without repeats. The list holds every author of the thread and nobody else, and starts with the originator. |
| Threads.ParticipantsOrder | main.js:82-84 | Participants appear in the order of each author's first message. |
| Seqs.Uniq | main.js:83 | The result has no repeats, has the same members as its input, and keeps the first element first. |
| Seqs.UniqOrder | main.js:83 | The result lists elements in the order of their first occurrence in the input. |
| Playback.PlayConvos | main.js:34-38 | With no roots left, nothing is issued and the player stops. Otherwise the front root is taken off the queue. |
| Playback.StartConvo | main.js:40-71 | The player stays well formed, and the remaining roots are the ones after the started root. |
| Playback.StartConvoCommands | main.js:48-70 | With several participants, exactly one walk is issued for each participant other than the originator, and nothing else. With one participant, the root's text is shown at once for 4000 ms. |
| Playback.ArrivalGate | main.js:58-66 | An arrival before the last only counts. The last arrival shows the thread's first message and enters the speaking phase. |
| Playback.ConvergeRun | main.js:58-66 | Once all outstanding arrivals have come in, exactly one command is issued: show the first message. |
| Playback.StartAndConverge | main.js:40-66 | Starting a thread and receiving every arrival issues the walks in participant order, followed by the first message. |
| Playback.SpeakRun | main.js:86-97 | One completion per queued message shows the messages in order. The next completion finishes the thread and starts the next root. |
| Playback.Step | main.js:58-97 | Each callback keeps the player well formed and the index unchanged. |
| Playback.OneRoot | main.js:34-97 | Playing one root with its callbacks issues exactly that thread's trace, then hands over to the remaining roots. |
| Playback.PlaybackTrace | main.js:34-97 | Fed every callback, the player issues, in order, the walks and messages of each root's thread, then stops. |
| Scheduler.Schedule | src/Agent.js:94-101 | The event carries the given callback and timeout. It is appended at the end and the earlier events are unchanged. |
| Scheduler.Elapse | src/Agent.js:105-106 | Every timer is lowered by delta. Nothing else about an event changes. |
| Scheduler.TickScheduled | src/Agent.js:103-113 | The loop fires exactly the events the reference tick finds due, in list order. With distinct ids, what stays is exactly the events still pending. |
| Scheduler.TickSplits | src/Agent.js:103-113 | Fired events have a timer at or below zero. Remaining ones have a timer above zero. Together they account for every event. |
| Scheduler.FiredLeave | src/Agent.js:103-113 | No fired event stays behind, so an event fires once. |
| Scheduler.DifferenceOfDue | src/Agent.js:112 | With distinct ids, removing the collected events by identity leaves exactly the pending ones. |
| Scheduler.Cancel | src/Agent.js:186 | The result keeps every event except the one with the withdrawn identity. |
| Clips.BeforeDot | src/Agent.js:211 | The result is the prefix of the name before the first dot. |
| Clips.Lower | src/Agent.js:211 | Lower-cases each character and keeps the length. |
| Clips.SetupActions | src/Agent.js:203-217 | The action names are exactly the lower-cased name prefixes of the clips. No action list is empty. |
| Clips.SetupActionsGroups | src/Agent.js:209-217 | Each action lists exactly the clips whose name maps to it, in their original order. |
| Agents.NewAgent | src/Agent.js:25-31 | A new agent is well formed, has nothing scheduled, and is not loaded. |
| Agents.SetAction | src/Agent.js:68-76 | The new clip becomes current and the previous clip is the one faded from. Nothing else changes. |
| Agents.ScheduleNextAction | src/Agent.js:184-195 | With more than one clip, one new reselection is queued last, with a fresh id, for the clip's duration plus half the 0.1 cross-fade, and it becomes the current one. With one clip, the id counter and the current reselection stay. Nothing outside the scheduler changes. |
| Agents.ScheduleNextActionEvents | src/Agent.js:185-194 | The previous reselection is withdrawn, and every other pending event stays. With more than one clip, only the new reselection is added. |
| Agents.OneReselection | src/Agent.js:184-195 | A well-formed agent has at most one pending reselection. |
| Agents.ScheduleNextActionValid | src/Agent.js:184-195 | Withdrawing and rescheduling a reselection keeps the agent well formed. |
| Agents.SetState | src/Agent.js:52-66 | It succeeds exactly when the state has a non-empty clip list, or has none and idle does. `moving` and `engaged` hold exactly for the moving and engaged states. A clip comes from the state's list, or else it is the first idle clip and the scheduler is left alone. |
| Agents.SetStateValid | src/Agent.js:52-66 | A loaded agent always succeeds, and the result stays well formed. |
| Agents.GoTo | src/Agent.js:87-92 | The agent is walking and moving towards the new target, and only the new arrival callback is kept. |
| Agents.GoToValid | src/Agent.js:87-92 | A loaded agent can always start walking, and it stays well formed. |
| Agents.MoveTowardsTarget | src/Agent.js:132-147 | Farther than 0.05 from the target, the agent takes one full step of delta times 5. Its distance becomes the distance minus the step, or the overshoot past the target. Within 0.05, the distance stays, and the agent goes idle and stops moving. The arrival callback, if any, is reported once and cleared. |
| Agents.ArrivalOnce | src/Agent.js:119-145 | The update that arrives leaves the agent not moving and without a callback. The next update then does not walk, and reports no arrival. |
| Agents.Advance | src/Agent.js:135-137 | Correction of Findings row 3, not what the source does: a step clamped to the distance never increases it, and stops on the target. |
| Agents.CorrectedArrives | src/Agent.js:135-137 | Correction of Findings row 3: with the clamped step, an agent whose steps cover the distance arrives. |
| Agents.AdvanceAsWritten | src/Agent.js:135-137 | A full step leaves the distance minus the step, or the overshoot past the target. |
| Agents.AsWrittenNeverArrives | src/Agent.js:135-137 | As written, a distance of 0.06 walked in full steps of 1/6 alternates between 0.06 and 0.1066... forever. |
| Agents.Fire | src/Agent.js:105-110 | It fails exactly when a due reselection has no clips. Outside callbacks are reported in list order. Only the current clip can change. |
| Agents.Update | src/Agent.js:119-147 | Before loading nothing happens. An agent that does not arrive keeps in its scheduler what the tick left pending, and due outside callbacks are reported. A far moving agent takes one full step, which can carry it past the target. A moving agent within 0.05 arrives. It goes idle, stops moving and keeps its distance. It reports the due outside callbacks, then its arrival callback, if any, which is cleared. |
| Agents.UpdateValid | src/Agent.js:119-130 | Updating a well-formed agent never fails and keeps it well formed. |
| Agents.UpdateWalkStep | src/Agent.js:119-147 | One update of a loaded, well-formed agent that walks or has arrived keeps it so. A far agent takes one full step. Otherwise its distance stays. |
| Agents.IterateAsWritten | src/Agent.js:119-147 | Any step that moves the distance as one frame of the source does walks it down, over `n` frames, as the full-step iteration. |
| Agents.WalkAsWritten | src/Agent.js:119-147 | `n` updates in a row with the same delta never fail and leave the agent at the distance the full-step iteration gives. |
| Agents.AgentNeverArrives | src/Agent.js:119-147 | A walking agent 0.06 away, updated at 30 frames a second, is still farther than 0.05 after any number of frames. |
| Agents.Load | src/Agent.js:44-47 | Loading succeeds exactly when some clip is an idle clip. It leaves the agent loaded, idle and not moving, with its clips grouped into actions. |
| Agents.LoadValid | src/Agent.js:44-47 | Loading keeps the agent well formed. |
| Agents.ScheduleCallback | src/Agent.js:94-101 | An outside callback is appended with a fresh identity, and the agent stays well formed. |
| Environment.NewEnv | src/Environment.js:11-22 | The new environment is well formed with no agents. |
| Environment.SpawnCoordinate | src/Environment.js:46-48 | A whole number of units from the lower edge, within plus or minus half the size. |
| Environment.AddAgent | src/Environment.js:44-52 | A fresh, unloaded agent is appended and returned. It spawns within the ground at height 0. Other agents are unchanged and the environment stays well formed. |
| Environment.LoadAsWritten | src/Agent.js:49 | As written, a successful load pushes the agent onto the list again. |
| Environment.LoadAgent | src/Agent.js:44-50 | Correction of Findings row 2, not what the source does: loading leaves the agent list as it was and changes only that agent. |
| Environment.LoadAgentValid | src/Agent.js:44-50 | Loading keeps the environment well formed. |
| Environment.LoadAsWrittenValid | src/Agent.js:49 | The repeated push keeps the environment well formed. |
| Environment.AddThenLoad | src/Environment.js:50 | After adding and loading, the agent appears twice in the list as written and once as corrected. |
| Environment.UpdateAll | src/Environment.js:78-80 | Updating the list keeps the set of agents. |
| Environment.UpdateAllCounts | src/Environment.js:78-80 | Each agent receives one update per occurrence in the list, in order, and no others. |
| Environment.UpdateAllValid | src/Environment.js:78-80 | Updating a well-formed store never fails and keeps every agent well formed. |
| Environment.Render | src/Environment.js:68-85 | Paused, nothing changes. A delta of 0.5 or more only draws. A smaller delta updates the agents and keeps the list. |
| Environment.RenderUpdates | src/Environment.js:72-80 | A frame under the gate never fails, keeps the environment well formed, and updates each agent once per list occurrence. |
| Environment.LoadedAgentUpdates | src/Environment.js:50 | As written, a loaded agent is updated twice per frame. As corrected, once. |
| Environment.FindByName | src/Environment.js:55 | Finds the first agent in the list with the name, or reports that none has it. |
| Environment.Retire | src/Agent.js:78-80 | A removed agent has nothing scheduled and no mixer. |
| Environment.RemoveAgent | src/Environment.js:54-58 | Fails exactly when no agent has the name. Otherwise the first such agent leaves the list, every occurrence of it, and is retired. |
| Environment.RemoveAgentValid | src/Environment.js:54-58 | Removal keeps the environment well formed. |
| Collect.Chunks | collect.py:29-30 | The chunks concatenate back to the input. Each is non-empty and at most 100 long, and only the last may be shorter. |
| Collect.BatchedChunks | collect.py:26-31 | Batched lookup is the concatenation of one request per chunk of 100. |
| Collect.RequestInChunks | collect.py:26-31 | The loop returns the batched lookup. |
| Collect.GetUsers | collect.py:26-31 | Users are looked up in batches of 100 names. |
| Collect.LookupTweetsAsWritten | collect.py:33-38 | As written, the result is always empty. |
| Collect.LookupTweets | collect.py:33-38 | Correction of Findings row 1, not what the source does: the result is the batched lookup of the ids. |
| Collect.LookupDiscards | collect.py:33-38 | Whenever any request of the lookup answers something, the intended lookup is not empty, so it differs from the lookup as written, which is always empty. |
| Collect.MissingParentsMember | collect.py:46-51 | Exactly the parent ids of the latest tweets that are not yet collected. |
| Collect.FetchGrows | collect.py:44-55 | The collection only grows, and a fetch that runs no round changes nothing. |
| Collect.FetchBounded | collect.py:44-55 | The fetch runs at most the given number of rounds (10 in the source). Stopping early means no parent of the last batch is missing. |
| Collect.FetchThreadsAsWritten | collect.py:33-55 | As written, the loop computes the reference fetch with an API that answers nothing. The tweets stay the initial ones. One round runs when some parent is missing, and none otherwise. |
| Collect.FetchThreadsCorrected | collect.py:44-55 | Correction of Findings row 1: with the lookup keeping its answers, the loop computes the reference fetch. |
| Collect.FetchAsWrittenAddsNothing | collect.py:44-55 | With a lookup that returns nothing, as written, fetching never adds a tweet. |
| Collect.MissingParentFetched | collect.py:44-55 | A reply whose parent is missing gets the parent fetched. As written, it does not. |
| Collect.Group | collect.py:57-69 | Roots are exactly the tweets without a collected parent, in order. Each parent's replies are exactly its collected replies, in order. Roots and replies partition the tweets. |
| Collect.GroupAllGrouped | collect.py:62-69 | Placing the tweets one by one in input order yields roots and a reply index that meet the grouping contract. |
| Collect.PlaceGrouped | collect.py:63-69 | Placing one more tweet, as a root, as the first reply to a parent, or as a later reply, keeps the grouping contract. |
| Collect.GroupedUnique | collect.py:62-69 | With distinct ids, every tweet is listed under at most one parent, once. |
| Collect.GroupedAcyclic | collect.py:62-69 | When replies have larger ids than their parents, the reply index has no cycle. |
| Collect.ListOf | collect.py:60 | The distinct screen names, each once. |
| Collect.AssembleConversations | collect.py:33-73 | As written, only the timeline and mentions are grouped into roots and reply index, because no parent is ever added. Users are looked up once per distinct author of those tweets. |
| Collect.AssembleConversationsCorrected | collect.py:40-73 | Correction of Findings row 1: the fetched tweets extend the timeline and mentions, and they are grouped into roots and reply index. Users are looked up once per distinct author. |

## Left out

- Rendering is not modelled. That covers the scene, camera, lights, orbit controls and the thought bubbles' DOM and screen position (`tick`, `updateThoughtPosition`, `abovePosition`, `toXYCoords`, `clear`, `spawnGround`, `place`, `origin`). None of it affects the state that is modelled.
- Mesh and texture loading (`loadMesh`, `Loader`) is not modelled. Their asynchronous completion is the moment `Load` runs.
- The animation mixer's blending (`mixer.update`, `crossFadeTo`, `setEffectiveWeight`) is not modelled. Only which clip is current and which one it fades from are kept.
- `showThought` is reduced to a `ShowThought` command. Its `setTimeout` completion is the `ThoughtDone` event.
- Geometry is reduced to the distance to the target. Floating-point vectors become a real distance, and the random angle around the originator and `lookAt` are left out.
- Numbers are reals, not IEEE doubles, so rounding is not modelled.
- `_.sample` and `_.random` take a caller-supplied `pick` index instead of a random number. One update uses one pick for all of its samples.
- `Environment.UpdateAll` and `Environment.Render`: hand the same `pick` to every agent in a frame. Frames in which agents draw different random values are not modelled.
- `Agent.remove` is not modelled for an agent using an object (`usingObject.leave`). No object in the core sets `usingObject`.
- The keyboard handler, the HTTP request and `server.py` are not modelled. The JSON wire format and the Twython client are not modelled either.
- The load counter of `main.js` is not modelled. `main.js` starts playback once every agent has loaded.
- `Clips.Lower`: folds only ASCII `A`-`Z`, while JavaScript's `toLowerCase` also folds other scripts.
- `Clips.SetupActions`: does not model JavaScript's `in` seeing prototype keys such as `constructor`.
- When the source throws part-way through a method, the fields it had already assigned are not modelled. The model returns `Failure` with nothing changed.
- `Agents.Update`: fires the due callbacks after lowering every timer, while the source calls each one inside the loop. The two agree because no modelled callback touches the scheduler. Outside callbacks that schedule more events are not modelled.
- `Agents.MoveTowardsTarget`: reports the arrival callback before clearing it, as the source does. A callback that calls `goTo` again is not modelled.
- `Collect.ListOf`: Python's set order is arbitrary, so only the members and the absence of repeats are stated.
- `Collect.GroupedUnique`: assumes the collected tweets have distinct ids. The API can return a tweet that is also in the timeline.
- `Collect.GroupedAcyclic`: assumes replies have larger ids than their parents, as Twitter ids grow with time. Nothing in the source checks this.
- `Playback.StartConvo`: requires the whole reply index to be acyclic, although only a cycle reachable from the root matters. On such a cycle the recursion of `get_thread` exhausts the call stack and throws a `RangeError`, which is not modelled.
- Rate limits and API errors are not modelled.

## Findings

| source | as written | input that shows it | evidently intended | confidence | as-written member | corrected member |
|---|---|---|---|---|---|---|
| collect.py:37 | `lookup_tweets` builds `tweets + ...` and throws it away, so it always returns `[]`. | A reply with id 2 whose parent, id 1, was not collected, and an API that returns tweet 1 for `[1]`. The fetch loop never adds tweet 1. | Accumulate with `+=`, as `get_users` does. | high; not executed | Collect.MissingParentFetched | Collect.FetchThreadsCorrected |
| src/Agent.js:49 | The loaded agent is pushed onto `env.agents`, where `addAgent` (src/Environment.js:50) already put it. | `addAgent` followed by a completed load leaves the agent in the list twice. Each frame then updates it twice, so its timers and walk run at double speed. | Each agent is listed once. | medium; not executed | Environment.LoadedAgentUpdates | Environment.AddThenLoad |
| src/Agent.js:135-137 | The step is a full `delta * SPEED` even when the target is closer, so the agent overshoots. | A walking agent 0.06 away, updated with delta 1/30 s (a step of 1/6). The distance alternates between 0.06 and 0.1066... and never comes within 0.05. | Stop on the target: clamp the step to the remaining distance. | medium; not executed | Agents.AgentNeverArrives | Agents.CorrectedArrives |
