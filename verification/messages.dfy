/** The message records shared by the collector and the player: a tweet with
    its id, author screen name, text and the id it replies to, and the reply
    index that maps a tweet id to the tweets answering it. */
module Messages {
  import opened Wrappers

  /** Tweet ids. The collector keys the index by integer id and the player
      looks it up by the same id written as a string; one id type serves both. */
  type Id = nat

  datatype Tweet = Tweet(id: Id, author: string, text: string, parent: Option<Id>)

  /** Parent id to the tweets that reply to it, in collection order. */
  type ReplyIndex = map<Id, seq<Tweet>>

  /** No id occurs twice. */
  ghost predicate NoDupIds(s: seq<Tweet>)
  {
    forall i, j :: 0 <= i < j < |s| ==> s[i].id != s[j].id
  }

  /** The ids of `s`, in order. */
  function Ids(s: seq<Tweet>): (ids: seq<Id>)
    ensures |ids| == |s|
    ensures forall i :: 0 <= i < |s| ==> ids[i] == s[i].id
  {
    if |s| == 0 then [] else [s[0].id] + Ids(s[1..])
  }
}
