/** Conversation playback (main.js `play_convos`, `start_convo`, `tweet`).
    The source chains callbacks; here each callback is an explicit event fed to
    a state machine that answers with the agent commands the source issues:
    - `Arrived`: an agent's `goTo` arrival callback ran;
    - `ThoughtDone`: the `showThought` completion callback ran.
    The player keeps the remaining roots, the reply index and the current phase. */
module Playback {
  import opened Seqs
  import opened Messages
  import opened Threads

  /** `TWEET_INTERVAL`: how long one message stays on screen, in milliseconds. */
  const TweetInterval: nat := 4000

  datatype Command =
    | GoTo(agent: string)                              // walk next to the originator
    | ShowThought(agent: string, text: string, ms: nat) // display one message
    | ThreadDone                                       // the thread's completion callback ran

  datatype Event = Arrived | ThoughtDone

  datatype Phase =
    | Stopped                                                  // no roots left
    | Converging(thread: seq<Tweet>, needed: nat, arrived: nat) // waiting for arrivals
    | Speaking(rest: seq<Tweet>)                               // one message on screen

  datatype Player = Player(index: ReplyIndex, roots: seq<Tweet>, phase: Phase)

  datatype Output = Output(player: Player, commands: seq<Command>)

  /** A converging thread still has its messages and still waits for an arrival. */
  ghost predicate Valid(p: Player)
  {
    && Acyclic(p.index)
    && (p.phase.Converging? ==> |p.phase.thread| > 0 && p.phase.arrived < p.phase.needed)
  }

  /** The command that shows one message on its author's agent. */
  function Show(t: Tweet): Command
  {
    ShowThought(t.author, t.text, TweetInterval)
  }

  /** One `GoTo` for every participant after the originator, in order. */
  function Converge(users: seq<string>): (cmds: seq<Command>)
    requires |users| > 0
    ensures |cmds| == |users| - 1
    ensures forall i :: 0 <= i < |cmds| ==> cmds[i] == GoTo(users[i + 1])
  {
    seq(|users| - 1, i requires 0 <= i < |users| - 1 => GoTo(users[i + 1]))
  }

  /** `tweet`: take the front message off the queue and show it. */
  function SpeakNext(index: ReplyIndex, roots: seq<Tweet>, queue: seq<Tweet>): (o: Output)
    requires |queue| > 0
    ensures o.player == Player(index, roots, Speaking(queue[1..]))
    ensures o.commands == [ShowThought(queue[0].author, queue[0].text, TweetInterval)]
  {
    Output(Player(index, roots, Speaking(queue[1..])), [Show(queue[0])])
  }

  /** `start_convo`: with several participants, send every other participant
      towards the originator and wait; otherwise start the dialogue at once. */
  function StartConvo(index: ReplyIndex, root: Tweet, rest: seq<Tweet>): (o: Output)
    requires Acyclic(index)
    ensures Valid(o.player) && o.player.index == index && o.player.roots == rest
  {
    var thread := Conversation(index, root);
    var users := Participants(thread);
    if |users| > 1 then
      Output(Player(index, rest, Converging(thread, |users| - 1, 0)), Converge(users))
    else
      SpeakNext(index, rest, thread)
  }

  /** `play_convos`: start the front root, or do nothing when none is left. */
  function PlayConvos(index: ReplyIndex, roots: seq<Tweet>): (o: Output)
    requires Acyclic(index)
    ensures Valid(o.player) && o.player.index == index
    ensures |roots| == 0 ==> o.commands == [] && o.player.phase == Stopped
    ensures |roots| > 0 ==> o.player.roots == roots[1..]
  {
    if |roots| > 0 then StartConvo(index, roots[0], roots[1..])
    else Output(Player(index, [], Stopped), [])
  }

  /** One callback: an arrival counts towards the convergence; a finished
      thought shows the next message, or completes the thread and plays the
      next root. Events the current phase does not wait for change nothing. */
  function Step(p: Player, e: Event): (o: Output)
    requires Valid(p)
    ensures Valid(o.player) && o.player.index == p.index
  {
    match (p.phase, e)
    case (Converging(thread, needed, arrived), Arrived) =>
      if arrived + 1 == needed then SpeakNext(p.index, p.roots, thread)
      else Output(p.(phase := Converging(thread, needed, arrived + 1)), [])
    case (Speaking(rest), ThoughtDone) =>
      if |rest| > 0 then SpeakNext(p.index, p.roots, rest)
      else
        var next := PlayConvos(p.index, p.roots);
        Output(next.player, [ThreadDone] + next.commands)
    case _ => Output(p, [])
  }

  /** Feed events in order, collecting every command issued. */
  function Run(p: Player, events: seq<Event>): (o: Output)
    requires Valid(p)
    ensures Valid(o.player) && o.player.index == p.index
    decreases |events|
  {
    if |events| == 0 then Output(p, [])
    else
      var first := Step(p, events[0]);
      var more := Run(first.player, events[1..]);
      Output(more.player, first.commands + more.commands)
  }

  lemma {:induction false} RunAppend(p: Player, e1: seq<Event>, e2: seq<Event>)
    requires Valid(p)
    ensures Run(p, e1 + e2).player == Run(Run(p, e1).player, e2).player
    ensures Run(p, e1 + e2).commands == Run(p, e1).commands + Run(Run(p, e1).player, e2).commands
    decreases |e1|
  {
    if |e1| > 0 {
      var first := Step(p, e1[0]);
      RunFirst(p, e1 + e2);
      RunFirst(p, e1);
      assert (e1 + e2)[0] == e1[0];
      assert (e1 + e2)[1..] == e1[1..] + e2;
      RunAppend(first.player, e1[1..], e2);
      var mid := Run(first.player, e1[1..]);
      AppendAssoc(first.commands, mid.commands, Run(mid.player, e2).commands);
    } else {
      assert e1 + e2 == e2;
    }
  }

  lemma AppendAssoc<T>(a: seq<T>, b: seq<T>, c: seq<T>)
    ensures a + (b + c) == (a + b) + c
  {
  }

  /** `n` copies of one event. */
  function Repeat(e: Event, n: nat): (es: seq<Event>)
    ensures |es| == n
  {
    if n == 0 then [] else [e] + Repeat(e, n - 1)
  }

  /** The commands showing every message of `thread`, front to back. */
  function Shows(thread: seq<Tweet>): (cmds: seq<Command>)
    ensures |cmds| == |thread|
  {
    if |thread| == 0 then [] else [Show(thread[0])] + Shows(thread[1..])
  }

  /** Everything one root's playback issues: the convergence, every message in
      thread order, then the completion. */
  function ThreadTrace(index: ReplyIndex, root: Tweet): seq<Command>
    requires Acyclic(index)
  {
    var thread := Conversation(index, root);
    Converge(Participants(thread)) + Shows(thread) + [ThreadDone]
  }

  /** The reference playback of a root list: each root's trace, in root order. */
  function ExpectedTrace(index: ReplyIndex, roots: seq<Tweet>): seq<Command>
    requires Acyclic(index)
  {
    if |roots| == 0 then [] else ThreadTrace(index, roots[0]) + ExpectedTrace(index, roots[1..])
  }

  /** The callbacks a cooperative scene delivers for one root: each walking
      agent arrives once, then each shown message finishes once. */
  function RootEvents(index: ReplyIndex, root: Tweet): seq<Event>
    requires Acyclic(index)
  {
    var thread := Conversation(index, root);
    Repeat(Arrived, |Participants(thread)| - 1) + Repeat(ThoughtDone, |thread|)
  }

  function AllEvents(index: ReplyIndex, roots: seq<Tweet>): seq<Event>
    requires Acyclic(index)
  {
    if |roots| == 0 then [] else RootEvents(index, roots[0]) + AllEvents(index, roots[1..])
  }

  /** With several participants, `start_convo` sends exactly the non-originator
      participants walking, each once, and never the originator; with one
      participant it shows the root at once and sends nobody. */
  lemma StartConvoCommands(index: ReplyIndex, root: Tweet, rest: seq<Tweet>)
    requires Acyclic(index)
    ensures var users := Participants(Conversation(index, root));
            var cmds := StartConvo(index, root, rest).commands;
            && (|users| > 1 ==>
                  && NoDup(cmds)
                  && (forall u :: GoTo(u) in cmds <==> u in users && u != root.author)
                  && (forall c :: c in cmds ==> c.GoTo?))
            && (|users| == 1 ==> cmds == [ShowThought(root.author, root.text, TweetInterval)])
  {
    var thread := Conversation(index, root);
    var users := Participants(thread);
    if |users| > 1 {
      assert StartConvo(index, root, rest).commands == Converge(users);
      ConvergeWalks(users);
    }
  }

  /** The walks go to every name after the first, each once, and to
      nothing else. */
  lemma ConvergeWalks(users: seq<string>)
    requires |users| > 1 && NoDup(users)
    ensures var cmds := Converge(users);
            && NoDup(cmds)
            && (forall u :: GoTo(u) in cmds <==> u in users && u != users[0])
            && (forall c :: c in cmds ==> c.GoTo?)
  {
    var cmds := Converge(users);
    forall i, j | 0 <= i < j < |cmds|
      ensures cmds[i] != cmds[j]
    {
      assert users[i + 1] != users[j + 1];
    }
    forall u
      ensures GoTo(u) in cmds <==> u in users && u != users[0]
    {
      if GoTo(u) in cmds {
        var i :| 0 <= i < |cmds| && cmds[i] == GoTo(u);
        assert users[i + 1] == u;
        assert users[0] != users[i + 1];
      }
      if u in users && u != users[0] {
        var k :| 0 <= k < |users| && users[k] == u;
        assert cmds[k - 1] == GoTo(u);
      }
    }
  }

  /** The dialogue starts only when the arrival count reaches the number of
      walking participants: earlier arrivals issue nothing, the last one shows
      the root message. */
  lemma ArrivalGate(p: Player)
    requires Valid(p) && p.phase.Converging?
    ensures var o := Step(p, Arrived);
            && (p.phase.arrived + 1 < p.phase.needed ==>
                  o.commands == [] && o.player.phase.Converging? && o.player.phase.arrived == p.phase.arrived + 1)
            && (p.phase.arrived + 1 == p.phase.needed ==>
                  o.commands == [Show(p.phase.thread[0])] && o.player.phase == Speaking(p.phase.thread[1..]))
  {
  }

  /** Starting from a waiting convergence, the remaining arrivals yield just
      the first message. */
  lemma {:induction false} ConvergeRun(p: Player)
    requires Valid(p) && p.phase.Converging?
    ensures var o := Run(p, Repeat(Arrived, p.phase.needed - p.phase.arrived));
            o.commands == [Show(p.phase.thread[0])] &&
            o.player == Player(p.index, p.roots, Speaking(p.phase.thread[1..]))
    decreases p.phase.needed - p.phase.arrived
  {
    var n := p.phase.needed - p.phase.arrived;
    var es := Repeat(Arrived, n);
    assert es[0] == Arrived && es[1..] == Repeat(Arrived, n - 1);
    if n > 1 {
      ConvergeRun(Step(p, Arrived).player);
    }
  }

  lemma RunFirst(p: Player, events: seq<Event>)
    requires Valid(p) && |events| > 0
    ensures Run(p, events).player == Run(Step(p, events[0]).player, events[1..]).player
    ensures Run(p, events).commands == Step(p, events[0]).commands + Run(Step(p, events[0]).player, events[1..]).commands
  {
  }

  /** From a message on screen with `rest` queued, `|rest| + 1` completions
      show `rest` front to back, complete the thread once, and play the
      next root. */
  lemma {:induction false} SpeakRun(index: ReplyIndex, roots: seq<Tweet>, rest: seq<Tweet>)
    requires Acyclic(index)
    ensures var o := Run(Player(index, roots, Speaking(rest)), Repeat(ThoughtDone, |rest| + 1));
            o.commands == Shows(rest) + [ThreadDone] + PlayConvos(index, roots).commands &&
            o.player == PlayConvos(index, roots).player
    decreases |rest|
  {
    var p := Player(index, roots, Speaking(rest));
    var es := Repeat(ThoughtDone, |rest| + 1);
    RunFirst(p, es);
    var s := Step(p, ThoughtDone);
    if |rest| > 0 {
      assert s == SpeakNext(index, roots, rest);
      assert es[1..] == Repeat(ThoughtDone, |rest[1..]| + 1);
      SpeakRun(index, roots, rest[1..]);
      assert Shows(rest) == [Show(rest[0])] + Shows(rest[1..]);
    } else {
      var next := PlayConvos(index, roots);
      assert s == Output(next.player, [ThreadDone] + next.commands);
      assert es[1..] == [];
    }
  }

  /** One root end to end: its start plus its callbacks issue its trace, and
      leave the player exactly where `play_convos` on the remaining roots puts it. */
  /** Starting a root and delivering its arrivals issues the convergence and
      the root message, and leaves the rest of the thread queued. */
  lemma StartAndConverge(index: ReplyIndex, root: Tweet, rest: seq<Tweet>)
    requires Acyclic(index)
    ensures var thread := Conversation(index, root);
            var users := Participants(thread);
            var start := StartConvo(index, root, rest);
            var mid := Run(start.player, Repeat(Arrived, |users| - 1));
            && start.commands + mid.commands == Converge(users) + [Show(thread[0])]
            && mid.player == Player(index, rest, Speaking(thread[1..]))
  {
    var thread := Conversation(index, root);
    var users := Participants(thread);
    var start := StartConvo(index, root, rest);
    var arrivals := Repeat(Arrived, |users| - 1);
    if |users| > 1 {
      assert start == Output(Player(index, rest, Converging(thread, |users| - 1, 0)), Converge(users));
      ConvergeRun(start.player);
    } else {
      assert start == SpeakNext(index, rest, thread);
      assert arrivals == [];
    }
  }

  /** One root end to end: its start plus its callbacks issue its trace, and
      leave the player exactly where `play_convos` on the remaining roots puts it. */
  lemma OneRoot(index: ReplyIndex, root: Tweet, rest: seq<Tweet>)
    requires Acyclic(index)
    ensures var start := PlayConvos(index, [root] + rest);
            var o := Run(start.player, RootEvents(index, root));
            && start.commands + o.commands == ThreadTrace(index, root) + PlayConvos(index, rest).commands
            && o.player == PlayConvos(index, rest).player
  {
    var thread := Conversation(index, root);
    var users := Participants(thread);
    assert ([root] + rest)[1..] == rest;
    var start := StartConvo(index, root, rest);
    assert PlayConvos(index, [root] + rest) == start;
    var arrivals := Repeat(Arrived, |users| - 1);
    var dones := Repeat(ThoughtDone, |thread[1..]| + 1);
    assert RootEvents(index, root) == arrivals + dones;
    RunAppend(start.player, arrivals, dones);
    StartAndConverge(index, root, rest);
    var speaking := Player(index, rest, Speaking(thread[1..]));
    assert Run(start.player, arrivals).player == speaking;
    SpeakRun(index, rest, thread[1..]);
    ShowsCons(thread);
    Rearrange(start.commands, Run(start.player, arrivals).commands, Run(speaking, dones).commands,
              Converge(users), [Show(thread[0])], Shows(thread[1..]), [ThreadDone],
              PlayConvos(index, rest).commands, Shows(thread));
  }

  lemma Rearrange<T>(a: seq<T>, b: seq<T>, c: seq<T>, conv: seq<T>, first: seq<T>,
                     tail: seq<T>, done: seq<T>, next: seq<T>, shows: seq<T>)
    requires a + b == conv + first
    requires c == tail + done + next
    requires shows == first + tail
    ensures a + (b + c) == conv + shows + done + next
  {
    calc {
      a + (b + c);
      (a + b) + c;
      (conv + first) + ((tail + done) + next);
      ((conv + first) + (tail + done)) + next;
      (((conv + first) + tail) + done) + next;
      ((conv + (first + tail)) + done) + next;
    }
  }

  lemma ShowsCons(thread: seq<Tweet>)
    requires |thread| > 0
    ensures Shows(thread) == [Show(thread[0])] + Shows(thread[1..])
  {
  }

  /** The whole playback: `play_convos` on the roots, followed by every
      callback a cooperative scene delivers, issues exactly the reference trace
      (roots front-first, each thread's messages front to back, one completion
      per thread) and ends stopped. */
  lemma {:induction false} PlaybackTrace(index: ReplyIndex, roots: seq<Tweet>)
    requires Acyclic(index)
    ensures var start := PlayConvos(index, roots);
            var o := Run(start.player, AllEvents(index, roots));
            start.commands + o.commands == ExpectedTrace(index, roots) && o.player.phase == Stopped
  {
    if |roots| > 0 {
      var root, rest := roots[0], roots[1..];
      assert roots == [root] + rest;
      var start := PlayConvos(index, roots);
      var first := Run(start.player, RootEvents(index, root));
      var next := PlayConvos(index, rest);
      assert AllEvents(index, roots) == RootEvents(index, root) + AllEvents(index, rest);
      RunAppend(start.player, RootEvents(index, root), AllEvents(index, rest));
      OneRoot(index, root, rest);
      assert first.player == next.player;
      PlaybackTrace(index, rest);
      Regroup(start.commands, first.commands, Run(next.player, AllEvents(index, rest)).commands,
              ThreadTrace(index, root), next.commands);
    }
  }

  lemma Regroup<T>(a: seq<T>, b: seq<T>, c: seq<T>, trace: seq<T>, next: seq<T>)
    requires a + b == trace + next
    ensures a + (b + c) == trace + (next + c)
  {
    calc {
      a + (b + c);
      (a + b) + c;
      (trace + next) + c;
    }
  }
}
