/** Animation clips and how an agent groups them into named actions
    (Agent.js `_setupAction`): a clip belongs to the action named by the
    lower-cased part of its name before the first `.`. */
module Clips {
  import opened Seqs

  /** An animation clip; `duration` is in seconds. */
  datatype Clip = Clip(name: string, duration: real)

  /** Actions by name, each list in the order the clips were given. */
  type Actions = map<string, seq<Clip>>

  predicate IsUpper(c: char)
  {
    'A' <= c <= 'Z'
  }

  function LowerChar(c: char): (r: char)
    ensures !IsUpper(r)
    ensures IsUpper(c) ==> r as int == c as int + 32
    ensures !IsUpper(c) ==> r == c
  {
    if IsUpper(c) then (c as int + 32) as char else c
  }

  /** `toLowerCase`, on the ASCII letters. */
  function Lower(s: string): (r: string)
    ensures |r| == |s|
    ensures forall i :: 0 <= i < |r| ==> r[i] == LowerChar(s[i])
  {
    seq(|s|, i requires 0 <= i < |s| => LowerChar(s[i]))
  }

  /** `split('.')[0]`: the longest prefix without a dot. */
  function BeforeDot(s: string): (r: string)
    ensures r <= s
    ensures '.' !in r
    ensures |r| < |s| ==> s[|r|] == '.'
  {
    if |s| == 0 || s[0] == '.' then [] else [s[0]] + BeforeDot(s[1..])
  }

  function ActionName(clipName: string): string
  {
    Lower(BeforeDot(clipName))
  }

  /** True when `clip` is grouped under `key`. */
  predicate Under(key: string, clip: Clip)
  {
    ActionName(clip.name) == key
  }

  /** `_setupActions`: each clip in turn is appended to the list of its action,
      which is created empty when first needed. */
  function SetupActions(anims: seq<Clip>): (actions: Actions)
    ensures forall k :: k in actions <==> exists i :: 0 <= i < |anims| && Under(k, anims[i])
    ensures forall k :: k in actions ==> |actions[k]| > 0
  {
    if |anims| == 0 then map[]
    else
      var before := SetupActions(anims[..|anims| - 1]);
      var clip := anims[|anims| - 1];
      var key := ActionName(clip.name);
      assert forall i :: 0 <= i < |anims| - 1 ==> anims[..|anims| - 1][i] == anims[i];
      before[key := (if key in before then before[key] else []) + [clip]]
  }

  /** Each action lists exactly the clips grouped under its name, in input
      order. */
  lemma {:induction false} SetupActionsGroups(anims: seq<Clip>)
    ensures forall k :: k in SetupActions(anims) ==> SetupActions(anims)[k] == Filter(anims, c => Under(k, c))
  {
    if |anims| > 0 {
      var front := anims[..|anims| - 1];
      var clip := anims[|anims| - 1];
      assert anims == front + [clip];
      SetupActionsGroups(front);
      var before := SetupActions(front);
      forall k | k in SetupActions(anims)
        ensures SetupActions(anims)[k] == Filter(anims, c => Under(k, c))
      {
        FilterSnoc(front, clip, c => Under(k, c));
        if k != ActionName(clip.name) {
          assert k in before;
        } else if k !in before {
          assert forall i :: 0 <= i < |front| ==> !Under(k, front[i]);
          assert Filter(front, c => Under(k, c)) == [] by {
            FilterNone(front, c => Under(k, c));
          }
        }
      }
    }
  }
}
