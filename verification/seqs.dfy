/** Sequence helpers with the meaning the source takes from its utility
    library: flatten one level, keep first occurrences, filter, and remove
    every occurrence of a value. */
module Seqs {

  /** No value occurs twice. */
  ghost predicate NoDup<T>(s: seq<T>)
  {
    forall i, j :: 0 <= i < j < |s| ==> s[i] != s[j]
  }

  /** Concatenation of the inner sequences, in order (one level of `flatten`). */
  function Flatten<T>(ss: seq<seq<T>>): seq<T>
  {
    if |ss| == 0 then [] else ss[0] + Flatten(ss[1..])
  }

  lemma {:induction false} FlattenMember<T>(ss: seq<seq<T>>, x: T)
    ensures x in Flatten(ss) <==> exists i :: 0 <= i < |ss| && x in ss[i]
  {
    if |ss| > 0 {
      FlattenMember(ss[1..], x);
      if x in Flatten(ss[1..]) {
        var i :| 0 <= i < |ss[1..]| && x in ss[1..][i];
        assert x in ss[i + 1];
      }
      if exists i :: 0 <= i < |ss| && x in ss[i] {
        var i :| 0 <= i < |ss| && x in ss[i];
        if i > 0 {
          assert x in ss[1..][i - 1];
        }
      }
    }
  }

  lemma {:induction false} FlattenSnoc<T>(ss: seq<seq<T>>, s: seq<T>)
    ensures Flatten(ss + [s]) == Flatten(ss) + s
  {
    if |ss| == 0 {
      assert ss + [s] == [s];
    } else {
      assert (ss + [s])[1..] == ss[1..] + [s];
      FlattenSnoc(ss[1..], s);
    }
  }

  /** The elements of `s` that satisfy `p`, in their original order. */
  function Filter<T(!new)>(s: seq<T>, p: T -> bool): (r: seq<T>)
    ensures |r| <= |s|
    ensures forall x :: x in r <==> x in s && p(x)
  {
    if |s| == 0 then []
    else
      assert s == s[..|s| - 1] + [s[|s| - 1]];
      Filter(s[..|s| - 1], p) + (if p(s[|s| - 1]) then [s[|s| - 1]] else [])
  }

  /** Filtering keeps every copy of a value that satisfies `p` and no copy
      of one that does not. */
  lemma {:induction false} FilterCounts<T(!new)>(s: seq<T>, p: T -> bool, x: T)
    ensures multiset(Filter(s, p))[x] == if p(x) then multiset(s)[x] else 0
  {
    if |s| > 0 {
      var front, last := s[..|s| - 1], s[|s| - 1];
      assert s == front + [last];
      FilterCounts(front, p, x);
    }
  }

  /** Filtering with two predicates that agree on every element of `s` gives
      the same sequence. */
  lemma {:induction false} FilterCongruent<T(!new)>(s: seq<T>, p: T -> bool, q: T -> bool)
    requires forall i :: 0 <= i < |s| ==> p(s[i]) == q(s[i])
    ensures Filter(s, p) == Filter(s, q)
  {
    if |s| > 0 {
      FilterCongruent(s[..|s| - 1], p, q);
    }
  }

  lemma FilterSnoc<T(!new)>(s: seq<T>, x: T, p: T -> bool)
    ensures Filter(s + [x], p) == Filter(s, p) + (if p(x) then [x] else [])
  {
    assert (s + [x])[..|s|] == s;
  }

  /** A predicate and its complement split `s`: every element lands on
      exactly one side. */
  lemma {:induction false} FilterComplement<T(!new)>(s: seq<T>, p: T -> bool, q: T -> bool)
    requires forall i :: 0 <= i < |s| ==> q(s[i]) == !p(s[i])
    ensures |Filter(s, p)| + |Filter(s, q)| == |s|
  {
    if |s| > 0 {
      FilterComplement(s[..|s| - 1], p, q);
    }
  }

  lemma {:induction false} FilterNone<T(!new)>(s: seq<T>, p: T -> bool)
    requires forall i :: 0 <= i < |s| ==> !p(s[i])
    ensures Filter(s, p) == []
  {
    if |s| > 0 {
      FilterNone(s[..|s| - 1], p);
    }
  }

  /** Every occurrence of `x` removed, the rest kept in order (`without`). */
  function Without<T(==,!new)>(s: seq<T>, x: T): seq<T>
  {
    Filter(s, y => y != x)
  }

  /** First occurrences only, in the order they first appear (`uniq`): the
      result grows left to right and takes an element only when it is not
      already present. */
  function Uniq<T(==,!new)>(s: seq<T>): (r: seq<T>)
    ensures NoDup(r)
    ensures forall x :: x in r <==> x in s
    ensures |s| > 0 ==> |r| > 0 && r[0] == s[0]
  {
    if |s| == 0 then []
    else
      var u := Uniq(s[..|s| - 1]);
      if s[|s| - 1] in u then u else u + [s[|s| - 1]]
  }

  /** Some occurrence of `x` in `s` comes before every occurrence of `y`. */
  ghost predicate OccursFirst<T>(s: seq<T>, x: T, y: T)
  {
    exists a :: 0 <= a < |s| && s[a] == x && y !in s[..a + 1]
  }

  /** Uniq keeps first-occurrence order: for any two results, some occurrence
      of the earlier one precedes every occurrence of the later one. */
  lemma {:induction false} UniqOrder<T(!new)>(s: seq<T>)
    ensures forall i, j :: 0 <= i < j < |Uniq(s)| ==> OccursFirst(s, Uniq(s)[i], Uniq(s)[j])
  {
    if |s| > 0 {
      var s' := s[..|s| - 1];
      var u := Uniq(s');
      var r := Uniq(s);
      UniqOrder(s');
      forall i, j | 0 <= i < j < |r|
        ensures OccursFirst(s, r[i], r[j])
      {
        if j < |u| {
          assert r[i] == u[i] && r[j] == u[j];
          assert OccursFirst(s', u[i], u[j]);
          var a :| 0 <= a < |s'| && s'[a] == u[i] && u[j] !in s'[..a + 1];
          assert s[..a + 1] == s'[..a + 1];
          assert s[a] == r[i];
        } else {
          assert r == u + [s[|s| - 1]];
          assert r[j] == s[|s| - 1] && r[j] !in s';
          assert r[i] == u[i] && r[i] in s';
          var a :| 0 <= a < |s'| && s'[a] == r[i];
          assert s[..a + 1] == s'[..a + 1];
          assert s[a] == r[i];
        }
      }
    }
  }
}
