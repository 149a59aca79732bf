/** Thread reconstruction (main.js): a root tweet's thread is the root followed
    by `get_thread` of the root, which emits all direct replies first and then,
    reply by reply, each reply's own sub-thread. The participants of a thread are
    its authors, first occurrences only. */
module Threads {
  import opened Seqs
  import opened Wrappers
  import opened Messages

  /** The replies listed under `id`; an id missing from the index has none. */
  function Replies(index: ReplyIndex, id: Id): seq<Tweet>
  {
    if id in index then index[id] else []
  }

  /** `rank` witnesses that the reply graph has no cycle: a reply that has
      replies of its own ranks strictly below the tweet it answers. */
  ghost predicate Ranked(index: ReplyIndex, rank: map<Id, nat>)
  {
    && (forall p :: p in index ==> p in rank)
    && (forall p, t :: p in index && t in index[p] && t.id in index ==> rank[t.id] < rank[p])
  }

  /** The data contract `get_thread` relies on: following replies never comes
      back to a tweet already on the path (otherwise the source recurses forever). */
  ghost predicate Acyclic(index: ReplyIndex)
  {
    exists rank :: Ranked(index, rank)
  }

  ghost function TheRank(index: ReplyIndex): (rank: map<Id, nat>)
    requires Acyclic(index)
    ensures Ranked(index, rank)
  {
    var rank :| Ranked(index, rank); rank
  }

  ghost function Depth(index: ReplyIndex, id: Id): nat
    requires Acyclic(index)
  {
    if id in index then TheRank(index)[id] + 1 else 0
  }

  lemma ReplyDepth(index: ReplyIndex, id: Id, t: Tweet)
    requires Acyclic(index)
    requires t in Replies(index, id)
    ensures Depth(index, t.id) < Depth(index, id)
  {
    assert t in index[id];
  }

  /** The sub-thread of every direct reply of `id`, in reply order. */
  function Subthreads(index: ReplyIndex, id: Id): (subs: seq<seq<Tweet>>)
    requires Acyclic(index)
    ensures |subs| == |Replies(index, id)|
    ensures forall i :: 0 <= i < |subs| ==> subs[i] == GetThread(index, Replies(index, id)[i].id)
    decreases Depth(index, id), 0
  {
    var kids := Replies(index, id);
    seq(|kids|, i requires 0 <= i < |kids| =>
      ReplyDepth(index, id, kids[i]); GetThread(index, kids[i].id))
  }

  /** `get_thread`: the direct replies, then the flattened sub-threads. */
  function GetThread(index: ReplyIndex, id: Id): seq<Tweet>
    requires Acyclic(index)
    decreases Depth(index, id), 1
  {
    Replies(index, id) + Flatten(Subthreads(index, id))
  }

  /** `t` is reached from `root` by following replies along the chain `c`. */
  ghost predicate IsChain(index: ReplyIndex, root: Id, c: seq<Tweet>)
  {
    && |c| > 0
    && c[0] in Replies(index, root)
    && (forall k :: 0 < k < |c| ==> c[k] in Replies(index, c[k - 1].id))
  }

  /** `t` is a reply of `root`, or a reply of a reply, and so on. */
  ghost predicate Descendant(index: ReplyIndex, root: Id, t: Tweet)
  {
    exists c :: IsChain(index, root, c) && c[|c| - 1] == t
  }

  /** A reply of `root` followed by a chain from that reply is a chain from `root`. */
  lemma ExtendChain(index: ReplyIndex, root: Id, kid: Tweet, c: seq<Tweet>)
    requires kid in Replies(index, root)
    requires IsChain(index, kid.id, c)
    ensures IsChain(index, root, [kid] + c)
  {
    var c2 := [kid] + c;
    forall k | 0 < k < |c2|
      ensures c2[k] in Replies(index, c2[k - 1].id)
    {
      if k > 1 {
        assert c2[k] == c[k - 1] && c2[k - 1] == c[k - 2];
      }
    }
  }

  lemma WitnessDescendant(index: ReplyIndex, root: Id, c: seq<Tweet>, t: Tweet)
    requires IsChain(index, root, c) && c[|c| - 1] == t
    ensures Descendant(index, root, t)
  {
  }

  /** Everything `get_thread` emits descends from the root. */
  lemma {:induction false} ThreadSound(index: ReplyIndex, root: Id, t: Tweet)
    requires Acyclic(index)
    requires t in GetThread(index, root)
    ensures Descendant(index, root, t)
    decreases Depth(index, root)
  {
    var kids := Replies(index, root);
    var subs := Subthreads(index, root);
    assert GetThread(index, root) == kids + Flatten(subs);
    if t in kids {
      assert IsChain(index, root, [t]);
    } else {
      FlattenMember(subs, t);
      var i :| 0 <= i < |subs| && t in subs[i];
      ReplyDepth(index, root, kids[i]);
      ThreadSound(index, kids[i].id, t);
      var c :| IsChain(index, kids[i].id, c) && c[|c| - 1] == t;
      ExtendChain(index, root, kids[i], c);
      WitnessDescendant(index, root, [kids[i]] + c, t);
    }
  }

  /** Every descendant of the root is emitted by `get_thread`. */
  lemma {:induction false} ThreadComplete(index: ReplyIndex, root: Id, c: seq<Tweet>)
    requires Acyclic(index)
    requires IsChain(index, root, c)
    ensures c[|c| - 1] in GetThread(index, root)
    decreases |c|
  {
    var kids := Replies(index, root);
    if |c| > 1 {
      var c' := c[1..];
      assert IsChain(index, c[0].id, c') by {
        forall k | 0 < k < |c'|
          ensures c'[k] in Replies(index, c'[k - 1].id)
        {
          assert c'[k] == c[k + 1] && c'[k - 1] == c[k];
        }
      }
      ThreadComplete(index, c[0].id, c');
      var i :| 0 <= i < |kids| && kids[i] == c[0];
      var subs := Subthreads(index, root);
      assert c[|c| - 1] in subs[i];
      FlattenMember(subs, c[|c| - 1]);
    }
  }

  /** `get_thread(root)` holds exactly the descendants of `root`. */
  lemma ThreadIsDescendants(index: ReplyIndex, root: Id, t: Tweet)
    requires Acyclic(index)
    ensures t in GetThread(index, root) <==> Descendant(index, root, t)
  {
    if t in GetThread(index, root) {
      ThreadSound(index, root, t);
    }
    if Descendant(index, root, t) {
      var c :| IsChain(index, root, c) && c[|c| - 1] == t;
      ThreadComplete(index, root, c);
    }
  }

  /** Ranks fall strictly along a chain. */
  lemma {:induction false} ChainRank(index: ReplyIndex, rank: map<Id, nat>, root: Id, c: seq<Tweet>)
    requires Ranked(index, rank)
    requires IsChain(index, root, c)
    requires c[|c| - 1].id in index
    ensures root in index && rank[c[|c| - 1].id] < rank[root]
    decreases |c|
  {
    assert root in index;
    if |c| == 1 {
      assert c[0] in index[root];
    } else {
      var n := |c|;
      var c' := c[..n - 1];
      assert IsChain(index, root, c');
      assert c[n - 1] in index[c[n - 2].id];
      ChainRank(index, rank, root, c');
    }
  }

  /** The root never occurs in its own `get_thread`. */
  lemma ThreadExcludesRoot(index: ReplyIndex, root: Id)
    requires Acyclic(index)
    ensures forall t :: t in GetThread(index, root) ==> t.id != root
  {
    forall t | t in GetThread(index, root)
      ensures t.id != root
    {
      ThreadSound(index, root, t);
      var c :| IsChain(index, root, c) && c[|c| - 1] == t;
      if t.id == root {
        assert root in index by {
          assert c[0] in Replies(index, root);
        }
        ChainRank(index, TheRank(index), root, c);
        assert false;
      }
    }
  }

  /** Each tweet is listed at most once in the whole index: under one parent,
      at one position. */
  ghost predicate UniqueListing(index: ReplyIndex)
  {
    forall p, q, i, j ::
      (p in index && q in index && 0 <= i < |index[p]| && 0 <= j < |index[q]| &&
       index[p][i].id == index[q][j].id) ==> p == q && i == j
  }

  lemma SameIdSameParent(index: ReplyIndex, p: Id, a: Tweet, q: Id, b: Tweet)
    requires UniqueListing(index)
    requires a in Replies(index, p) && b in Replies(index, q) && a.id == b.id
    ensures p == q && a == b
  {
    var i :| 0 <= i < |index[p]| && index[p][i] == a;
    var j :| 0 <= j < |index[q]| && index[q][j] == b;
  }

  /** Two chains that end at the same tweet agree from the shorter one's start:
      its root is the root of the longer one, or the id just before the
      longer chain's matching suffix. */
  lemma {:induction false} ChainsMeet(index: ReplyIndex, x: Id, c1: seq<Tweet>, y: Id, c2: seq<Tweet>)
    requires UniqueListing(index)
    requires IsChain(index, x, c1) && IsChain(index, y, c2)
    requires c1[|c1| - 1].id == c2[|c2| - 1].id
    requires |c1| <= |c2|
    ensures |c1| == |c2| ==> x == y
    ensures |c1| < |c2| ==> x == c2[|c2| - |c1| - 1].id
    decreases |c1|
  {
    var n1, n2 := |c1|, |c2|;
    var p1 := if n1 == 1 then x else c1[n1 - 2].id;
    var p2 := if n2 == 1 then y else c2[n2 - 2].id;
    SameIdSameParent(index, p1, c1[n1 - 1], p2, c2[n2 - 1]);
    if n1 > 1 {
      var d1, d2 := c1[..n1 - 1], c2[..n2 - 1];
      assert IsChain(index, x, d1);
      assert IsChain(index, y, d2);
      ChainsMeet(index, x, d1, y, d2);
    }
  }

  /** Descendants of a reply of `x` never include `x` itself. */
  lemma NoReturn(index: ReplyIndex, rank: map<Id, nat>, x: Id, b: Tweet, c: seq<Tweet>)
    requires Ranked(index, rank)
    requires b in Replies(index, x)
    requires IsChain(index, b.id, c)
    ensures b.id != x
    ensures forall k :: 0 <= k < |c| ==> c[k].id != x
  {
    assert x in index && b in index[x];
    assert b.id in index by {
      assert c[0] in Replies(index, b.id);
    }
    forall k | 0 <= k < |c|
      ensures c[k].id != x
    {
      if c[k].id == x {
        assert IsChain(index, b.id, c[..k + 1]);
        ChainRank(index, rank, b.id, c[..k + 1]);
        assert false;
      }
    }
  }

  /** A direct reply of `x` is not also a deeper descendant through a
      sibling reply. */
  lemma NotBelowSibling(index: ReplyIndex, x: Id, a: Tweet, b: Tweet, c: seq<Tweet>)
    requires Acyclic(index) && UniqueListing(index)
    requires a in Replies(index, x) && b in Replies(index, x)
    requires IsChain(index, b.id, c)
    ensures c[|c| - 1].id != a.id
  {
    if c[|c| - 1].id == a.id {
      ChainsMeet(index, x, [a], b.id, c);
      NoReturn(index, TheRank(index), x, b, c);
      assert false;
    }
  }

  /** Sub-threads of two replies of `x` that share a tweet id start at
      replies with the same id (the shorter chain is the one through `a`). */
  lemma OneSided(index: ReplyIndex, x: Id, a: Tweet, ca: seq<Tweet>, b: Tweet, cb: seq<Tweet>)
    requires Acyclic(index) && UniqueListing(index)
    requires a in Replies(index, x) && b in Replies(index, x)
    requires IsChain(index, a.id, ca) && IsChain(index, b.id, cb)
    requires ca[|ca| - 1].id == cb[|cb| - 1].id
    requires |ca| <= |cb|
    ensures a.id == b.id
  {
    ChainsMeet(index, a.id, ca, b.id, cb);
    if |ca| < |cb| {
      var m := |cb| - |ca|;
      var pm := if m == 1 then b.id else cb[m - 2].id;
      assert cb[m - 1] in Replies(index, pm);
      SameIdSameParent(index, x, a, pm, cb[m - 1]);
      NoReturn(index, TheRank(index), x, b, cb);
      assert false;
    }
  }

  /** The sub-threads of two different replies share no tweet id. */
  lemma SiblingsDisjoint(index: ReplyIndex, x: Id, i: nat, j: nat, t1: Tweet, t2: Tweet)
    requires Acyclic(index) && UniqueListing(index)
    requires i < |Replies(index, x)| && j < |Replies(index, x)| && i != j
    requires t1 in GetThread(index, Replies(index, x)[i].id)
    requires t2 in GetThread(index, Replies(index, x)[j].id)
    ensures t1.id != t2.id
  {
    var kids := Replies(index, x);
    var a, b := kids[i], kids[j];
    ThreadSound(index, a.id, t1);
    ThreadSound(index, b.id, t2);
    var ca :| IsChain(index, a.id, ca) && ca[|ca| - 1] == t1;
    var cb :| IsChain(index, b.id, cb) && cb[|cb| - 1] == t2;
    assert a == index[x][i] && b == index[x][j];
    if t1.id == t2.id {
      if |ca| <= |cb| {
        OneSided(index, x, a, ca, b, cb);
      } else {
        OneSided(index, x, b, cb, a, ca);
      }
      assert false;
    }
  }

  lemma NoDupIdsConcat(a: seq<Tweet>, b: seq<Tweet>)
    requires NoDupIds(a) && NoDupIds(b) && Apart(a, b)
    ensures NoDupIds(a + b)
  {
    forall i, j | 0 <= i < j < |a + b|
      ensures (a + b)[i].id != (a + b)[j].id
    {
      if i < |a| && j >= |a| {
        assert (a + b)[i] in a && (a + b)[j] in b;
      }
    }
  }

  /** Every block has distinct ids. */
  ghost predicate EachNoDupIds(ss: seq<seq<Tweet>>)
  {
    forall i :: 0 <= i < |ss| ==> NoDupIds(ss[i])
  }

  /** Different blocks share no id. */
  ghost predicate BlocksApart(ss: seq<seq<Tweet>>)
  {
    forall i, j, s: Tweet, t: Tweet :: 0 <= i < |ss| && 0 <= j < |ss| && i != j && s in ss[i] && t in ss[j] ==> s.id != t.id
  }

  /** No tweet of `a` shares an id with one of `b`. */
  ghost predicate Apart(a: seq<Tweet>, b: seq<Tweet>)
  {
    forall s, t :: s in a && t in b ==> s.id != t.id
  }

  lemma {:induction false} FlattenNoDupIds(ss: seq<seq<Tweet>>)
    requires EachNoDupIds(ss) && BlocksApart(ss)
    ensures NoDupIds(Flatten(ss))
  {
    if |ss| > 0 {
      assert EachNoDupIds(ss[1..]) && BlocksApart(ss[1..]) by {
        forall i, j, s: Tweet, t: Tweet | 0 <= i < |ss[1..]| && 0 <= j < |ss[1..]| && i != j && s in ss[1..][i] && t in ss[1..][j]
          ensures s.id != t.id
        {
          assert s in ss[i + 1] && t in ss[j + 1];
        }
      }
      FlattenNoDupIds(ss[1..]);
      forall s: Tweet, t: Tweet | s in ss[0] && t in Flatten(ss[1..])
        ensures s.id != t.id
      {
        FlattenMember(ss[1..], t);
        var j :| 0 <= j < |ss[1..]| && t in ss[1..][j];
        assert t in ss[j + 1];
      }
      NoDupIdsConcat(ss[0], Flatten(ss[1..]));
    }
  }

  /** The direct replies of one tweet carry distinct ids. */
  lemma RepliesDistinct(index: ReplyIndex, root: Id)
    requires UniqueListing(index)
    ensures NoDupIds(Replies(index, root))
  {
    var kids := Replies(index, root);
    forall i, j | 0 <= i < j < |kids|
      ensures kids[i].id != kids[j].id
    {
      assert kids[i] == index[root][i] && kids[j] == index[root][j];
    }
  }

  /** The sub-threads of different replies share no id. */
  lemma SubthreadsApart(index: ReplyIndex, root: Id)
    requires Acyclic(index) && UniqueListing(index)
    ensures BlocksApart(Subthreads(index, root))
  {
    var subs := Subthreads(index, root);
    forall i, j, s: Tweet, t: Tweet | 0 <= i < |subs| && 0 <= j < |subs| && i != j && s in subs[i] && t in subs[j]
      ensures s.id != t.id
    {
      SiblingsDisjoint(index, root, i, j, s, t);
    }
  }

  /** No direct reply reappears, by id, among the flattened sub-threads. */
  lemma RepliesApart(index: ReplyIndex, root: Id)
    requires Acyclic(index) && UniqueListing(index)
    ensures Apart(Replies(index, root), Flatten(Subthreads(index, root)))
  {
    var kids := Replies(index, root);
    var subs := Subthreads(index, root);
    forall s: Tweet, t: Tweet | s in kids && t in Flatten(subs)
      ensures s.id != t.id
    {
      FlattenMember(subs, t);
      var j :| 0 <= j < |subs| && t in subs[j];
      ThreadSound(index, kids[j].id, t);
      var c :| IsChain(index, kids[j].id, c) && c[|c| - 1] == t;
      NotBelowSibling(index, root, s, kids[j], c);
    }
  }

  /** The sub-threads each emit their descendants once. */
  lemma {:induction false} SubthreadsUnique(index: ReplyIndex, root: Id)
    requires Acyclic(index) && UniqueListing(index)
    ensures EachNoDupIds(Subthreads(index, root))
    decreases Depth(index, root), 0
  {
    var kids := Replies(index, root);
    var subs := Subthreads(index, root);
    forall i | 0 <= i < |subs|
      ensures NoDupIds(subs[i])
    {
      ReplyDepth(index, root, kids[i]);
      ThreadUnique(index, kids[i].id);
    }
  }

  /** When every tweet is listed at most once, `get_thread` emits each
      descendant exactly once. */
  lemma {:induction false} ThreadUnique(index: ReplyIndex, root: Id)
    requires Acyclic(index) && UniqueListing(index)
    ensures NoDupIds(GetThread(index, root))
    decreases Depth(index, root), 1
  {
    var kids := Replies(index, root);
    var subs := Subthreads(index, root);
    SubthreadsUnique(index, root);
    SubthreadsApart(index, root);
    FlattenNoDupIds(subs);
    RepliesDistinct(index, root);
    RepliesApart(index, root);
    NoDupIdsConcat(kids, Flatten(subs));
  }

  /** Direct replies come first: position `i` of `get_thread` holds a direct
      reply exactly when `i` is below the number of direct replies. */
  lemma RepliesFirst(index: ReplyIndex, root: Id)
    requires Acyclic(index) && UniqueListing(index)
    ensures forall i :: 0 <= i < |GetThread(index, root)| ==>
              (GetThread(index, root)[i] in Replies(index, root) <==> i < |Replies(index, root)|)
  {
    var r := GetThread(index, root);
    var kids := Replies(index, root);
    ThreadUnique(index, root);
    assert forall k :: 0 <= k < |kids| ==> r[k] == kids[k];
    forall i | |kids| <= i < |r|
      ensures r[i] !in kids
    {
    }
  }

  /** The thread `start_convo` plays: the root, then `get_thread(root)`. */
  function Conversation(index: ReplyIndex, root: Tweet): (thread: seq<Tweet>)
    requires Acyclic(index)
    ensures |thread| > 0 && thread[0] == root
    ensures forall i :: 0 < i < |thread| ==> thread[i].id != root.id
  {
    ThreadExcludesRoot(index, root.id);
    [root] + GetThread(index, root.id)
  }

  /** The authors of `thread`, position by position. */
  function Authors(thread: seq<Tweet>): (names: seq<string>)
    ensures |names| == |thread|
    ensures forall i :: 0 <= i < |thread| ==> names[i] == thread[i].author
  {
    seq(|thread|, i requires 0 <= i < |thread| => thread[i].author)
  }

  /** `participants`: every author once, first occurrences first; the
      originator of a non-empty thread comes first. */
  function Participants(thread: seq<Tweet>): (users: seq<string>)
    ensures NoDup(users)
    ensures forall a :: a in users <==> exists t :: t in thread && t.author == a
    ensures |thread| > 0 ==> |users| > 0 && users[0] == thread[0].author
  {
    var names := Authors(thread);
    assert forall a :: a in names <==> exists t :: t in thread && t.author == a by {
      forall a | a in names
        ensures exists t :: t in thread && t.author == a
      {
        var i :| 0 <= i < |names| && names[i] == a;
        assert thread[i] in thread;
      }
      forall a | exists t :: t in thread && t.author == a
        ensures a in names
      {
        var t :| t in thread && t.author == a;
        var i :| 0 <= i < |thread| && thread[i] == t;
        assert names[i] == a;
      }
    }
    Uniq(names)
  }

  /** Participants are listed in order of first appearance in the thread. */
  lemma ParticipantsOrder(thread: seq<Tweet>)
    ensures forall i, j :: 0 <= i < j < |Participants(thread)| ==>
              OccursFirst(Authors(thread), Participants(thread)[i], Participants(thread)[j])
  {
    UniqOrder(Authors(thread));
  }

  /** Replies before deeper descendants: with 2 and 3 answering 1 and 4
      answering 2, the thread of 1 is 2, 3, 4 and not 2, 4, 3. */
  lemma ChildrenFirst()
    ensures var t2, t3, t4 := Tweet(2, "b", "", Some(1)), Tweet(3, "c", "", Some(1)), Tweet(4, "a", "", Some(2));
      var index := map[1 := [t2, t3], 2 := [t4]];
      Acyclic(index) && GetThread(index, 1) == [t2, t3, t4]
  {
    var t2, t3, t4 := Tweet(2, "b", "", Some(1)), Tweet(3, "c", "", Some(1)), Tweet(4, "a", "", Some(2));
    var index := map[1 := [t2, t3], 2 := [t4]];
    assert Ranked(index, map[1 := 1, 2 := 0]);
    assert GetThread(index, 4) == [] by {
      assert Replies(index, 4) == [] && Subthreads(index, 4) == [];
    }
    assert GetThread(index, 3) == [] by {
      assert Replies(index, 3) == [] && Subthreads(index, 3) == [];
    }
    var none: seq<Tweet> := [];
    assert GetThread(index, 2) == [t4] by {
      assert Replies(index, 2) == [t4];
      assert Subthreads(index, 2)[0] == GetThread(index, 4);
      assert Subthreads(index, 2) == [none];
      assert Flatten([none]) == none + Flatten([]);
    }
    assert Subthreads(index, 1) == [[t4], none];
    assert Flatten([[t4], none]) == [t4] + Flatten([none]);
    assert Flatten([none]) == none + Flatten([]);
  }
}
