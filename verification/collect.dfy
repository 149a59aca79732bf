/** The collector (collect.py): fetch the missing parents of the gathered
    tweets a bounded number of rounds, then split the tweets into thread
    roots and the reply index the player reads. The Twitter API calls are
    function parameters. */
module Collect {
  import opened Wrappers
  import opened Seqs
  import opened Messages
  import Threads

  /** Ids or names per lookup request. */
  const ChunkSize: nat := 100
  /** Rounds of parent fetching. */
  const MaxDepth: nat := 10

  /** `range(0, len(xs), size)` with `xs[i:i+size]`: consecutive slices of
      `size`, the last one possibly shorter. */
  function Chunks<T>(xs: seq<T>, size: nat): (cs: seq<seq<T>>)
    requires size > 0
    ensures Flatten(cs) == xs
    ensures forall i :: 0 <= i < |cs| ==> 0 < |cs[i]| <= size
    ensures forall i :: 0 <= i < |cs| - 1 ==> |cs[i]| == size
    decreases |xs|
  {
    if |xs| == 0 then []
    else if |xs| <= size then
      assert [xs][1..] == [];
      [xs]
    else
      var rest := Chunks(xs[size..], size);
      assert ([xs[..size]] + rest)[1..] == rest;
      [xs[..size]] + rest
  }

  /** One request per chunk, the answers concatenated in request order. */
  function Batched<T, U>(xs: seq<T>, request: seq<T> -> seq<U>): (out: seq<U>)
    decreases |xs|
  {
    if |xs| == 0 then []
    else if |xs| <= ChunkSize then request(xs)
    else request(xs[..ChunkSize]) + Batched(xs[ChunkSize..], request)
  }

  /** The answers to one request per slice. */
  function Requests<T, U>(cs: seq<seq<T>>, request: seq<T> -> seq<U>): (answers: seq<seq<U>>)
    ensures |answers| == |cs|
    ensures forall i :: 0 <= i < |cs| ==> answers[i] == request(cs[i])
  {
    seq(|cs|, i requires 0 <= i < |cs| => request(cs[i]))
  }

  /** `Batched` asks exactly for the chunks of the input. */
  lemma {:induction false} BatchedChunks<T, U>(xs: seq<T>, request: seq<T> -> seq<U>)
    ensures Batched(xs, request) == Flatten(Requests(Chunks(xs, ChunkSize), request))
    decreases |xs|
  {
    var cs := Chunks(xs, ChunkSize);
    var answers := Requests(cs, request);
    if |xs| > ChunkSize {
      var rest := Chunks(xs[ChunkSize..], ChunkSize);
      BatchedChunks(xs[ChunkSize..], request);
      assert cs == [xs[..ChunkSize]] + rest;
      assert answers[1..] == Requests(rest, request);
    } else if |xs| > 0 {
      assert answers[1..] == [];
    }
  }

  /** The request loop of `get_users` (and of `lookup_tweets` as intended):
      `out += request(xs[i:i+100])` for `i` in steps of 100. */
  method RequestInChunks<T, U>(xs: seq<T>, request: seq<T> -> seq<U>) returns (out: seq<U>)
    ensures out == Batched(xs, request)
  {
    out := [];
    var i := 0;
    while i < |xs|
      invariant i < |xs| ==> out + Batched(xs[i..], request) == Batched(xs, request)
      invariant i >= |xs| ==> out == Batched(xs, request)
      decreases |xs| - i
    {
      var end := if i + ChunkSize <= |xs| then i + ChunkSize else |xs|;
      var rest := xs[i..];
      if |rest| > ChunkSize {
        assert rest[..ChunkSize] == xs[i..end] && rest[ChunkSize..] == xs[end..];
      } else {
        assert rest == xs[i..end];
      }
      out := out + request(xs[i..end]);
      i := i + ChunkSize;
    }
    if |xs| == 0 {
      assert out == [];
    }
  }

  /** `get_users`: the users for the given screen names, 100 names per
      request. */
  method GetUsers<U>(names: seq<string>, lookupUser: seq<string> -> seq<U>) returns (users: seq<U>)
    ensures users == Batched(names, lookupUser)
  {
    users := RequestInChunks(names, lookupUser);
  }

  /** `lookup_tweets` as written: each request's answer is concatenated to
      the accumulator and the sum is thrown away, so nothing is returned. */
  method LookupTweetsAsWritten(ids: seq<Id>, lookupStatus: seq<Id> -> seq<Tweet>) returns (tweets: seq<Tweet>)
    ensures tweets == []
  {
    tweets := [];
    var i := 0;
    while i < |ids|
      invariant tweets == []
      decreases |ids| - i
    {
      var end := if i + ChunkSize <= |ids| then i + ChunkSize else |ids|;
      var discarded := tweets + lookupStatus(ids[i..end]);
      i := i + ChunkSize;
    }
  }

  /** `lookup_tweets` with the answers kept. */
  method LookupTweets(ids: seq<Id>, lookupStatus: seq<Id> -> seq<Tweet>) returns (tweets: seq<Tweet>)
    ensures tweets == Batched(ids, lookupStatus)
  {
    tweets := RequestInChunks(ids, lookupStatus);
  }

  /** As soon as any request returns something, the kept answers are not
      empty, while the source returns nothing. */
  lemma LookupDiscards(ids: seq<Id>, lookupStatus: seq<Id> -> seq<Tweet>, i: nat)
    requires i < |Chunks(ids, ChunkSize)| && lookupStatus(Chunks(ids, ChunkSize)[i]) != []
    ensures Batched(ids, lookupStatus) != []
  {
    var answers := Requests(Chunks(ids, ChunkSize), lookupStatus);
    BatchedChunks(ids, lookupStatus);
    FlattenMember(answers, answers[i][0]);
  }

  /** The parent ids, in child order, of the children whose parent is not
      among `ids`. */
  function MissingParents(children: seq<Tweet>, ids: seq<Id>): (parents: seq<Id>)
    ensures |parents| <= |children|
  {
    if |children| == 0 then []
    else
      var c := children[0];
      (if c.parent.Some? && c.parent.value !in ids then [c.parent.value] else []) + MissingParents(children[1..], ids)
  }

  /** The missing parents are exactly the parents of the children that are
      not among the known ids. */
  lemma {:induction false} MissingParentsMember(children: seq<Tweet>, ids: seq<Id>)
    ensures forall p :: p in MissingParents(children, ids) <==> p !in ids && exists c :: c in children && c.parent == Some(p)
  {
    if |children| > 0 {
      MissingParentsMember(children[1..], ids);
      assert forall x :: x in children <==> x == children[0] || x in children[1..];
    }
  }

  /** The outcome of the parent-fetch loop: the tweets gathered, the last
      batch fetched, and how many rounds fetched something. */
  datatype Fetched = Fetched(tweets: seq<Tweet>, last: seq<Tweet>, rounds: nat)

  /** The parent-fetch loop: while rounds remain, look up the parents missing
      for the last batch and append them; stop early when none is missing. */
  function Fetch(tweets: seq<Tweet>, children: seq<Tweet>, lookupStatus: seq<Id> -> seq<Tweet>, fuel: nat): Fetched
    decreases fuel
  {
    if fuel == 0 then Fetched(tweets, children, 0)
    else
      var parents := MissingParents(children, Ids(tweets));
      if parents == [] then Fetched(tweets, children, 0)
      else
        var got := Batched(parents, lookupStatus);
        var next := Fetch(tweets + got, got, lookupStatus, fuel - 1);
        Fetched(next.tweets, next.last, next.rounds + 1)
  }

  /** No parent of the last batch is missing from the fetched tweets. */
  predicate Settled(f: Fetched)
  {
    MissingParents(f.last, Ids(f.tweets)) == []
  }

  /** The fetch only adds tweets, and a fetch of no rounds changes nothing. */
  lemma {:induction false} FetchGrows(tweets: seq<Tweet>, children: seq<Tweet>, lookupStatus: seq<Id> -> seq<Tweet>, fuel: nat)
    ensures var r := Fetch(tweets, children, lookupStatus, fuel);
      && tweets <= r.tweets
      && (r.rounds == 0 ==> r.tweets == tweets && r.last == children)
    decreases fuel
  {
    if fuel > 0 && MissingParents(children, Ids(tweets)) != [] {
      var got := Batched(MissingParents(children, Ids(tweets)), lookupStatus);
      var next := Fetch(tweets + got, got, lookupStatus, fuel - 1);
      FetchGrows(tweets + got, got, lookupStatus, fuel - 1);
      FetchRound(tweets, children, lookupStatus, fuel);
      PrefixTrans(tweets, tweets + got, next.tweets);
    } else {
      FetchStops(tweets, children, lookupStatus, fuel);
    }
  }

  /** The fetch runs at most `fuel` rounds, and stops early only when no
      parent of the last batch is missing. */
  lemma {:induction false} FetchBounded(tweets: seq<Tweet>, children: seq<Tweet>, lookupStatus: seq<Id> -> seq<Tweet>, fuel: nat)
    ensures var r := Fetch(tweets, children, lookupStatus, fuel);
      && r.rounds <= fuel
      && (r.rounds < fuel ==> Settled(r))
    decreases fuel
  {
    if fuel > 0 && MissingParents(children, Ids(tweets)) != [] {
      var got := Batched(MissingParents(children, Ids(tweets)), lookupStatus);
      FetchBounded(tweets + got, got, lookupStatus, fuel - 1);
      FetchRound(tweets, children, lookupStatus, fuel);
    } else {
      FetchStops(tweets, children, lookupStatus, fuel);
    }
  }

  lemma PrefixTrans<T>(a: seq<T>, b: seq<T>, c: seq<T>)
    requires a <= b <= c
    ensures a <= c
  {
    assert c[..|a|] == b[..|a|];
  }

  /** One round of the fetch when parents are missing. */
  lemma FetchRound(tweets: seq<Tweet>, children: seq<Tweet>, lookupStatus: seq<Id> -> seq<Tweet>, fuel: nat)
    requires fuel > 0 && MissingParents(children, Ids(tweets)) != []
    ensures var got := Batched(MissingParents(children, Ids(tweets)), lookupStatus);
      Fetch(tweets, children, lookupStatus, fuel) == Later(Fetch(tweets + got, got, lookupStatus, fuel - 1), 1)
  {
  }

  /** The fetch stops when no parent is missing or no round is left. */
  lemma FetchStops(tweets: seq<Tweet>, children: seq<Tweet>, lookupStatus: seq<Id> -> seq<Tweet>, fuel: nat)
    requires fuel == 0 || MissingParents(children, Ids(tweets)) == []
    ensures Fetch(tweets, children, lookupStatus, fuel) == Fetched(tweets, children, 0)
  {
  }

  /** A fetch outcome counted `k` rounds later. */
  function Later(f: Fetched, k: nat): Fetched
  {
    f.(rounds := f.rounds + k)
  }

  /** The loop of `assemble_conversations` with the lookup as intended. */
  method FetchThreadsCorrected(initial: seq<Tweet>, lookupStatus: seq<Id> -> seq<Tweet>, maxDepth: nat) returns (tweets: seq<Tweet>, rounds: nat)
    ensures Fetched(tweets, Fetch(initial, initial, lookupStatus, maxDepth).last, rounds) == Fetch(initial, initial, lookupStatus, maxDepth)
  {
    ghost var goal := Fetch(initial, initial, lookupStatus, maxDepth);
    tweets := initial;
    var children := initial;
    rounds := 0;
    while rounds < maxDepth
      invariant rounds <= maxDepth
      invariant goal == Later(Fetch(tweets, children, lookupStatus, maxDepth - rounds), rounds)
      decreases maxDepth - rounds
    {
      var parents := MissingParents(children, Ids(tweets));
      if parents == [] {
        break;
      }
      FetchRound(tweets, children, lookupStatus, maxDepth - rounds);
      children := LookupTweets(parents, lookupStatus);
      tweets := tweets + children;
      rounds := rounds + 1;
    }
    FetchStops(tweets, children, lookupStatus, maxDepth - rounds);
  }

  /** With the lookup as written, every request seems to answer nothing. */
  function NoAnswer(ids: seq<Id>): seq<Tweet>
  {
    []
  }

  lemma {:induction false} BatchedNoAnswer(ids: seq<Id>)
    ensures Batched(ids, NoAnswer) == []
    decreases |ids|
  {
    if |ids| > ChunkSize {
      BatchedNoAnswer(ids[ChunkSize..]);
    }
  }

  /** So the loop as written never adds a tweet: a thread whose start was
      not collected directly stays cut off. */
  lemma {:induction false} FetchAsWrittenAddsNothing(initial: seq<Tweet>, children: seq<Tweet>, fuel: nat)
    ensures Fetch(initial, children, NoAnswer, fuel).tweets == initial
    decreases fuel
  {
    if fuel > 0 && MissingParents(children, Ids(initial)) != [] {
      BatchedNoAnswer(MissingParents(children, Ids(initial)));
      assert initial + [] == initial;
      FetchAsWrittenAddsNothing(initial, [], fuel - 1);
    }
  }

  /** The loop of `assemble_conversations` as written: every lookup returns
      nothing, so the tweets stay the initial ones and at most one round
      runs, the one that finds parents missing. */
  method FetchThreadsAsWritten(initial: seq<Tweet>, lookupStatus: seq<Id> -> seq<Tweet>, maxDepth: nat) returns (tweets: seq<Tweet>, rounds: nat)
    ensures Fetched(tweets, Fetch(initial, initial, NoAnswer, maxDepth).last, rounds) == Fetch(initial, initial, NoAnswer, maxDepth)
    ensures tweets == initial
    ensures rounds == if maxDepth > 0 && MissingParents(initial, Ids(initial)) != [] then 1 else 0
  {
    ghost var goal := Fetch(initial, initial, NoAnswer, maxDepth);
    tweets := initial;
    var children := initial;
    rounds := 0;
    while rounds < maxDepth
      invariant rounds <= maxDepth && tweets == initial
      invariant goal == Later(Fetch(tweets, children, NoAnswer, maxDepth - rounds), rounds)
      invariant rounds > 0 ==> children == [] && rounds == 1 && MissingParents(initial, Ids(initial)) != []
      invariant rounds == 0 ==> children == initial
      decreases maxDepth - rounds
    {
      var parents := MissingParents(children, Ids(tweets));
      if parents == [] {
        break;
      }
      FetchRound(tweets, children, NoAnswer, maxDepth - rounds);
      BatchedNoAnswer(parents);
      children := LookupTweetsAsWritten(parents, lookupStatus);
      assert tweets + children == tweets;
      tweets := tweets + children;
      rounds := rounds + 1;
    }
    FetchStops(tweets, children, NoAnswer, maxDepth - rounds);
  }

  /** A reply whose parent was not collected: the corrected loop fetches the
      parent, the loop as written does not. */
  lemma MissingParentFetched()
    ensures var reply := Tweet(2, "b", "re", Some(1));
      var parent := Tweet(1, "a", "op", None);
      var api := (ids: seq<Id>) => if ids == [1] then [parent] else [];
      && Fetch([reply], [reply], api, MaxDepth).tweets == [reply, parent]
      && Fetch([reply], [reply], NoAnswer, MaxDepth).tweets == [reply]
  {
    var reply := Tweet(2, "b", "re", Some(1));
    var parent := Tweet(1, "a", "op", None);
    var api := (ids: seq<Id>) => if ids == [1] then [parent] else [];
    assert MissingParents([reply], Ids([reply])) == [1];
    assert Batched([1], api) == [parent];
    assert MissingParents([parent], Ids([reply, parent])) == [];
    FetchAsWrittenAddsNothing([reply], [reply], MaxDepth);
  }

  /** A tweet starts a thread when it answers nothing, or answers a tweet
      that was not collected. */
  predicate IsRoot(ids: seq<Id>, t: Tweet)
  {
    t.parent.None? || t.parent.value !in ids
  }

  predicate Answers(p: Id, t: Tweet)
  {
    t.parent == Some(p)
  }

  /** The replies listed under the keys of `order`, key by key. */
  function Concat(convos: ReplyIndex, order: seq<Id>): seq<Tweet>
    requires forall i :: 0 <= i < |order| ==> order[i] in convos
  {
    if |order| == 0 then [] else convos[order[0]] + Concat(convos, order[1..])
  }

  lemma {:induction false} ConcatFrame(convos: ReplyIndex, order: seq<Id>, p: Id, replies: seq<Tweet>)
    requires forall i :: 0 <= i < |order| ==> order[i] in convos
    requires p !in order
    ensures Concat(convos[p := replies], order) == Concat(convos, order)
  {
    if |order| > 0 {
      ConcatFrame(convos, order[1..], p, replies);
    }
  }

  lemma {:induction false} ConcatSnoc(convos: ReplyIndex, order: seq<Id>, p: Id)
    requires forall i :: 0 <= i < |order| ==> order[i] in convos
    requires p in convos
    ensures Concat(convos, order + [p]) == Concat(convos, order) + convos[p]
  {
    if |order| == 0 {
      assert [p][1..] == [];
    } else {
      assert (order + [p])[1..] == order[1..] + [p];
      ConcatSnoc(convos, order[1..], p);
    }
  }

  /** Appending a reply under a key already listed adds just that reply. */
  lemma {:induction false} ConcatGrow(convos: ReplyIndex, order: seq<Id>, p: Id, t: Tweet)
    requires forall i :: 0 <= i < |order| ==> order[i] in convos
    requires p in order && NoDup(order)
    ensures multiset(Concat(convos[p := convos[p] + [t]], order)) == multiset(Concat(convos, order)) + multiset{t}
  {
    var grown := convos[p := convos[p] + [t]];
    if order[0] == p {
      assert p !in order[1..];
      ConcatFrame(convos, order[1..], p, convos[p] + [t]);
    } else {
      assert NoDup(order[1..]);
      ConcatGrow(convos, order[1..], p, t);
    }
  }

  /** The roots among `seen`, in order. */
  function RootsOf(seen: seq<Tweet>, ids: seq<Id>): seq<Tweet>
  {
    if |seen| == 0 then []
    else
      var last := seen[|seen| - 1];
      RootsOf(seen[..|seen| - 1], ids) + if IsRoot(ids, last) then [last] else []
  }

  /** The replies to `p` among `seen`, in order. */
  function RepliesOf(seen: seq<Tweet>, p: Id): seq<Tweet>
  {
    if |seen| == 0 then []
    else
      var last := seen[|seen| - 1];
      RepliesOf(seen[..|seen| - 1], p) + if Answers(p, last) then [last] else []
  }

  lemma RootsOfSnoc(seen: seq<Tweet>, ids: seq<Id>, t: Tweet)
    ensures RootsOf(seen + [t], ids) == RootsOf(seen, ids) + if IsRoot(ids, t) then [t] else []
  {
    assert (seen + [t])[..|seen|] == seen;
  }

  lemma RepliesOfSnoc(seen: seq<Tweet>, p: Id, t: Tweet)
    ensures RepliesOf(seen + [t], p) == RepliesOf(seen, p) + if Answers(p, t) then [t] else []
  {
    assert (seen + [t])[..|seen|] == seen;
  }

  /** The replies to `p` are the tweets seen that answer `p`. */
  lemma {:induction false} RepliesOfMember(seen: seq<Tweet>, p: Id)
    ensures forall x :: x in RepliesOf(seen, p) <==> x in seen && Answers(p, x)
  {
    if |seen| > 0 {
      var front := seen[..|seen| - 1];
      assert seen == front + [seen[|seen| - 1]];
      RepliesOfMember(front, p);
    }
  }

  /** The keys of `convos` are exactly those listed in `order`, once each. */
  ghost predicate KeysListed(convos: ReplyIndex, order: seq<Id>)
  {
    && NoDup(order)
    && (forall i :: 0 <= i < |order| ==> order[i] in convos)
    && (forall p :: p in convos ==> p in order)
  }

  /** Under each key, the replies to it among `seen`; a key for every
      collected parent that has a reply. */
  ghost predicate RepliesListed(seen: seq<Tweet>, ids: seq<Id>, convos: ReplyIndex)
  {
    && (forall p :: p in convos ==> p in ids && |convos[p]| > 0 && convos[p] == RepliesOf(seen, p))
    && (forall p :: p in ids && (exists t :: t in seen && Answers(p, t)) ==> p in convos)
  }

  /** What the grouping keeps true of the tweets seen so far: `roots` holds
      the roots among them in order, `convos` under each key the replies to
      it in order, `order` lists the keys once each, and every tweet sits in
      exactly one of these places. */
  ghost predicate Grouped(seen: seq<Tweet>, ids: seq<Id>, roots: seq<Tweet>, convos: ReplyIndex, order: seq<Id>)
  {
    && roots == RootsOf(seen, ids)
    && KeysListed(convos, order)
    && RepliesListed(seen, ids, convos)
    && multiset(seen) == multiset(roots) + multiset(Concat(convos, order))
  }

  lemma PlaceRootReplies(seen: seq<Tweet>, ids: seq<Id>, t: Tweet, convos: ReplyIndex, next: seq<Tweet>)
    requires RepliesListed(seen, ids, convos)
    requires IsRoot(ids, t) && next == seen + [t]
    ensures RepliesListed(next, ids, convos)
  {
    forall p | p in convos
      ensures convos[p] == RepliesOf(next, p)
    {
      RepliesOfSnoc(seen, p, t);
    }
    forall p | p in ids && (exists u :: u in next && Answers(p, u))
      ensures p in convos
    {
      var u :| u in next && Answers(p, u);
      assert u in seen;
    }
  }

  lemma PlaceRoot(seen: seq<Tweet>, ids: seq<Id>, t: Tweet, roots: seq<Tweet>, convos: ReplyIndex, order: seq<Id>,
                  next: seq<Tweet>, roots': seq<Tweet>)
    requires Grouped(seen, ids, roots, convos, order)
    requires IsRoot(ids, t) && next == seen + [t] && roots' == roots + [t]
    ensures Grouped(next, ids, roots', convos, order)
  {
    RootsOfSnoc(seen, ids, t);
    PlaceRootReplies(seen, ids, t, convos, next);
    assert multiset(next) == multiset(seen) + multiset{t};
    assert multiset(roots') == multiset(roots) + multiset{t};
  }

  lemma PlaceNewReplies(seen: seq<Tweet>, ids: seq<Id>, t: Tweet, convos: ReplyIndex, next: seq<Tweet>, convos': ReplyIndex)
    requires RepliesListed(seen, ids, convos)
    requires !IsRoot(ids, t) && t.parent.value !in convos
    requires next == seen + [t] && convos' == convos[t.parent.value := [t]]
    ensures RepliesListed(next, ids, convos')
  {
    var p := t.parent.value;
    assert RepliesOf(seen, p) == [] by {
      RepliesOfMember(seen, p);
      if RepliesOf(seen, p) != [] {
        assert RepliesOf(seen, p)[0] in RepliesOf(seen, p);
      }
    }
    forall q | q in convos'
      ensures q in ids && |convos'[q]| > 0 && convos'[q] == RepliesOf(next, q)
    {
      RepliesOfSnoc(seen, q, t);
    }
    forall q | q in ids && (exists u :: u in next && Answers(q, u))
      ensures q in convos'
    {
      var u :| u in next && Answers(q, u);
      if u != t {
        assert u in seen;
      }
    }
  }

  lemma PlaceNew(seen: seq<Tweet>, ids: seq<Id>, t: Tweet, roots: seq<Tweet>, convos: ReplyIndex, order: seq<Id>,
                 next: seq<Tweet>, convos': ReplyIndex, order': seq<Id>)
    requires Grouped(seen, ids, roots, convos, order)
    requires !IsRoot(ids, t) && t.parent.value !in convos
    requires next == seen + [t] && convos' == convos[t.parent.value := [t]] && order' == order + [t.parent.value]
    ensures Grouped(next, ids, roots, convos', order')
  {
    RootsOfSnoc(seen, ids, t);
    PlaceNewReplies(seen, ids, t, convos, next, convos');
    PlaceNewKeys(convos, order, t.parent.value, t);
    assert multiset(next) == multiset(seen) + multiset{t};
  }

  lemma PlaceNewKeys(convos: ReplyIndex, order: seq<Id>, p: Id, t: Tweet)
    requires KeysListed(convos, order) && p !in convos
    ensures KeysListed(convos[p := [t]], order + [p])
    ensures multiset(Concat(convos[p := [t]], order + [p])) == multiset(Concat(convos, order)) + multiset{t}
  {
    ConcatFrame(convos, order, p, [t]);
    ConcatSnoc(convos[p := [t]], order, p);
  }

  lemma PlaceKnownReplies(seen: seq<Tweet>, ids: seq<Id>, t: Tweet, convos: ReplyIndex, next: seq<Tweet>, convos': ReplyIndex)
    requires RepliesListed(seen, ids, convos)
    requires !IsRoot(ids, t) && t.parent.value in convos
    requires next == seen + [t] && convos' == convos[t.parent.value := convos[t.parent.value] + [t]]
    ensures RepliesListed(next, ids, convos')
  {
    forall q | q in convos'
      ensures q in ids && |convos'[q]| > 0 && convos'[q] == RepliesOf(next, q)
    {
      RepliesOfSnoc(seen, q, t);
    }
    forall q | q in ids && (exists u :: u in next && Answers(q, u))
      ensures q in convos'
    {
      var u :| u in next && Answers(q, u);
      if u != t {
        assert u in seen;
      }
    }
  }

  lemma PlaceKnown(seen: seq<Tweet>, ids: seq<Id>, t: Tweet, roots: seq<Tweet>, convos: ReplyIndex, order: seq<Id>,
                   next: seq<Tweet>, convos': ReplyIndex)
    requires Grouped(seen, ids, roots, convos, order)
    requires !IsRoot(ids, t) && t.parent.value in convos
    requires next == seen + [t] && convos' == convos[t.parent.value := convos[t.parent.value] + [t]]
    ensures Grouped(next, ids, roots, convos', order)
  {
    var p := t.parent.value;
    RootsOfSnoc(seen, ids, t);
    PlaceKnownReplies(seen, ids, t, convos, next, convos');
    KeysKept(convos, order, p, convos[p] + [t]);
    ConcatGrow(convos, order, p, t);
    assert multiset(next) == multiset(seen) + multiset{t};
  }

  /** Replacing the replies under a listed key keeps the keys listed. */
  lemma KeysKept(convos: ReplyIndex, order: seq<Id>, p: Id, replies: seq<Tweet>)
    requires KeysListed(convos, order) && p in convos
    ensures KeysListed(convos[p := replies], order)
  {
  }

  /** Every tweet is a root or a listed reply, so the counts add up. */
  lemma GroupedSizes(seen: seq<Tweet>, ids: seq<Id>, roots: seq<Tweet>, convos: ReplyIndex, order: seq<Id>)
    requires Grouped(seen, ids, roots, convos, order)
    ensures |seen| == |roots| + |Concat(convos, order)|
  {
    assert |multiset(seen)| == |multiset(roots)| + |multiset(Concat(convos, order))|;
  }

  /** One step of the grouping loop: a root is appended to the roots; a
      reply opens a new list under its parent, or joins the existing one. */
  function Place(ids: seq<Id>, t: Tweet, roots: seq<Tweet>, convos: ReplyIndex, order: seq<Id>): (seq<Tweet>, ReplyIndex, seq<Id>)
  {
    if IsRoot(ids, t) then (roots + [t], convos, order)
    else if t.parent.value !in convos then (roots, convos[t.parent.value := [t]], order + [t.parent.value])
    else (roots, convos[t.parent.value := convos[t.parent.value] + [t]], order)
  }

  /** Placing one more tweet keeps the grouping invariant. */
  lemma PlaceGrouped(seen: seq<Tweet>, ids: seq<Id>, t: Tweet, roots: seq<Tweet>, convos: ReplyIndex, order: seq<Id>,
                     next: seq<Tweet>, placed: (seq<Tweet>, ReplyIndex, seq<Id>))
    requires Grouped(seen, ids, roots, convos, order)
    requires next == seen + [t] && placed == Place(ids, t, roots, convos, order)
    ensures Grouped(next, ids, placed.0, placed.1, placed.2)
  {
    if IsRoot(ids, t) {
      PlaceRoot(seen, ids, t, roots, convos, order, next, placed.0);
    } else if t.parent.value !in convos {
      PlaceNew(seen, ids, t, roots, convos, order, next, placed.1, placed.2);
    } else {
      PlaceKnown(seen, ids, t, roots, convos, order, next, placed.1);
    }
  }

  /** The grouping of a whole sequence: each tweet placed in turn. */
  function GroupAll(seen: seq<Tweet>, ids: seq<Id>): (seq<Tweet>, ReplyIndex, seq<Id>)
  {
    if |seen| == 0 then ([], map[], [])
    else
      var front := GroupAll(seen[..|seen| - 1], ids);
      Place(ids, seen[|seen| - 1], front.0, front.1, front.2)
  }

  /** Placing every tweet in turn groups the sequence. */
  lemma {:induction false} GroupAllGrouped(seen: seq<Tweet>, ids: seq<Id>)
    ensures Grouped(seen, ids, GroupAll(seen, ids).0, GroupAll(seen, ids).1, GroupAll(seen, ids).2)
  {
    if |seen| > 0 {
      var front, last := seen[..|seen| - 1], seen[|seen| - 1];
      GroupAllGrouped(front, ids);
      var g := GroupAll(front, ids);
      assert seen == front + [last];
      PlaceGrouped(front, ids, last, g.0, g.1, g.2, seen, GroupAll(seen, ids));
    }
  }

  lemma GroupAllSnoc(tweets: seq<Tweet>, i: nat, ids: seq<Id>)
    requires i < |tweets|
    ensures var g := GroupAll(tweets[..i], ids);
      GroupAll(tweets[..i + 1], ids) == Place(ids, tweets[i], g.0, g.1, g.2)
  {
    assert tweets[..i + 1][..i] == tweets[..i];
  }

  /** The grouping of `assemble_conversations`: roots in input order, and
      under each parent id its replies in input order, keys in first-use
      order; every tweet lands in exactly one of them. */
  method Group(tweets: seq<Tweet>) returns (roots: seq<Tweet>, convos: ReplyIndex, order: seq<Id>)
    ensures Grouped(tweets, Ids(tweets), roots, convos, order)
    ensures |tweets| == |roots| + |Concat(convos, order)|
  {
    var ids := Ids(tweets);
    roots, convos, order := [], map[], [];
    for i := 0 to |tweets|
      invariant (roots, convos, order) == GroupAll(tweets[..i], ids)
    {
      GroupAllSnoc(tweets, i, ids);
      var placed := Place(ids, tweets[i], roots, convos, order);
      roots, convos, order := placed.0, placed.1, placed.2;
    }
    assert tweets[..|tweets|] == tweets;
    GroupAllGrouped(tweets, ids);
    GroupedSizes(tweets, ids, roots, convos, order);
  }

  lemma {:induction false} RepliesNoDupIds(seen: seq<Tweet>, p: Id)
    requires NoDupIds(seen)
    ensures NoDupIds(RepliesOf(seen, p))
  {
    if |seen| > 0 {
      var front, last := seen[..|seen| - 1], seen[|seen| - 1];
      assert seen == front + [last];
      assert NoDupIds(front);
      RepliesNoDupIds(front, p);
      RepliesOfSnoc(front, p, last);
      var r := RepliesOf(front, p);
      RepliesOfMember(front, p);
      forall i | 0 <= i < |r|
        ensures r[i].id != last.id
      {
        assert r[i] in front;
        var k :| 0 <= k < |front| && front[k] == r[i];
        assert seen[k] == r[i];
      }
    }
  }

  /** Collected tweets with distinct ids list each tweet under at most one
      parent, once: the index meets the uniqueness `get_thread` needs to emit
      each descendant once. */
  lemma GroupedUnique(tweets: seq<Tweet>, roots: seq<Tweet>, convos: ReplyIndex, order: seq<Id>)
    requires NoDupIds(tweets)
    requires Grouped(tweets, Ids(tweets), roots, convos, order)
    ensures Threads.UniqueListing(convos)
  {
    forall p, q, i, j | p in convos && q in convos && 0 <= i < |convos[p]| && 0 <= j < |convos[q]| && convos[p][i].id == convos[q][j].id
      ensures p == q && i == j
    {
      var a, b := convos[p][i], convos[q][j];
      assert a in RepliesOf(tweets, p) && b in RepliesOf(tweets, q);
      RepliesOfMember(tweets, p);
      RepliesOfMember(tweets, q);
      var ka :| 0 <= ka < |tweets| && tweets[ka] == a;
      var kb :| 0 <= kb < |tweets| && tweets[kb] == b;
      assert ka == kb;
      RepliesNoDupIds(tweets, p);
    }
  }

  /** Twitter ids grow with time, so a reply's id exceeds its parent's. */
  ghost predicate ParentsEarlier(tweets: seq<Tweet>)
  {
    forall t :: t in tweets && t.parent.Some? ==> t.parent.value < t.id
  }

  function MaxId(ids: seq<Id>): (m: Id)
    ensures forall i :: 0 <= i < |ids| ==> ids[i] <= m
  {
    if |ids| == 0 then 0
    else
      var rest := MaxId(ids[1..]);
      if ids[0] > rest then ids[0] else rest
  }

  /** With replies younger than what they answer, the collected index has no
      cycle, so `get_thread` terminates on it. */
  lemma GroupedAcyclic(tweets: seq<Tweet>, roots: seq<Tweet>, convos: ReplyIndex, order: seq<Id>)
    requires ParentsEarlier(tweets)
    requires Grouped(tweets, Ids(tweets), roots, convos, order)
    ensures Threads.Acyclic(convos)
  {
    var ids := Ids(tweets);
    var top := MaxId(ids);
    var rank := map p | p in convos :: top - p;
    forall p | p in convos
      ensures p <= top
    {
      var k :| 0 <= k < |ids| && ids[k] == p;
    }
    forall p, t | p in convos && t in convos[p] && t.id in convos
      ensures rank[t.id] < rank[p]
    {
      assert t in RepliesOf(tweets, p);
      RepliesOfMember(tweets, p);
      assert t in tweets && Answers(p, t);
    }
    assert Threads.Ranked(convos, rank);
  }

  /** `list({...})`: the members of a set, each once, in some order. */
  method ListOf(s: set<string>) returns (xs: seq<string>)
    ensures NoDup(xs)
    ensures forall x :: x in xs <==> x in s
  {
    xs := [];
    var left := s;
    while left != {}
      invariant left <= s
      invariant NoDup(xs)
      invariant forall x :: x in xs <==> x in s && x !in left
      decreases |left|
    {
      var x :| x in left;
      xs := xs + [x];
      left := left - {x};
    }
  }

  /** `assemble_conversations` as written: since the lookups return nothing,
      only the user's timeline and mentions are grouped into roots and the
      reply index, and the profiles fetched are those of their authors. */
  method AssembleConversations<U>(timeline: seq<Tweet>, mentions: seq<Tweet>, lookupStatus: seq<Id> -> seq<Tweet>, lookupUser: seq<string> -> seq<U>)
    returns (roots: seq<Tweet>, convos: ReplyIndex, order: seq<Id>, names: seq<string>, users: seq<U>)
    ensures var tweets := timeline + mentions;
      && Grouped(tweets, Ids(tweets), roots, convos, order)
      && NoDup(names)
      && (forall a :: a in names <==> exists t :: t in tweets && t.author == a)
      && users == Batched(names, lookupUser)
  {
    var tweets, _ := FetchThreadsAsWritten(timeline + mentions, lookupStatus, MaxDepth);
    roots, convos, order := Group(tweets);
    names := ListOf(set t | t in tweets :: t.author);
    users := GetUsers(names, lookupUser);
  }

  /** `assemble_conversations` with the lookup as intended: the user's
      timeline and mentions, completed with the parents the fetch loop finds,
      grouped into roots and the reply index, and the profiles of every
      author. */
  method AssembleConversationsCorrected<U>(timeline: seq<Tweet>, mentions: seq<Tweet>, lookupStatus: seq<Id> -> seq<Tweet>, lookupUser: seq<string> -> seq<U>)
    returns (roots: seq<Tweet>, convos: ReplyIndex, order: seq<Id>, names: seq<string>, users: seq<U>)
    ensures var tweets := Fetch(timeline + mentions, timeline + mentions, lookupStatus, MaxDepth).tweets;
      && timeline + mentions <= tweets
      && Grouped(tweets, Ids(tweets), roots, convos, order)
      && NoDup(names)
      && (forall a :: a in names <==> exists t :: t in tweets && t.author == a)
      && users == Batched(names, lookupUser)
  {
    FetchGrows(timeline + mentions, timeline + mentions, lookupStatus, MaxDepth);
    var tweets, _ := FetchThreadsCorrected(timeline + mentions, lookupStatus, MaxDepth);
    roots, convos, order := Group(tweets);
    names := ListOf(set t | t in tweets :: t.author);
    users := GetUsers(names, lookupUser);
  }
}
