/** Feedback codes ("judges") and the grouping of candidate answers by the
    code each produces against one guess: the `partition` operation of the
    judge table that `DecisionTree::build` relies on. The scoring algorithm
    itself is not modelled; it is an arbitrary total function. */
module Judging {

  /** Index of a candidate answer. */
  type Answer = nat

  /** Index of a word that may be played; answers and guesses share one index space. */
  type Guess = nat

  /** Packed feedback code of a guess against an answer. */
  type Judge = nat

  /** The scoring function `judge(guess, answer)`. */
  type JudgeFn = (Guess, Answer) -> Judge

  /** `s` is an order-preserving subsequence of `t`. */
  ghost predicate IsSubsequence<T>(s: seq<T>, t: seq<T>)
    decreases |t|
  {
    if s == [] then true
    else if t == [] then false
    else
      || (s[|s| - 1] == t[|t| - 1] && IsSubsequence(s[..|s| - 1], t[..|t| - 1]))
      || IsSubsequence(s, t[..|t| - 1])
  }

  /** The set of codes the answers of `rem` produce against `g`. */
  function Codes(judge: JudgeFn, rem: seq<Answer>, g: Guess): set<Judge>
  {
    set a | a in rem :: judge(g, a)
  }

  /** Reference definition of one group: the answers of `rem` whose code
      against `g` is `k`, kept in their order in `rem`. */
  function Group(judge: JudgeFn, rem: seq<Answer>, g: Guess, k: Judge): seq<Answer>
  {
    if rem == [] then []
    else
      var last := rem[|rem| - 1];
      Group(judge, rem[..|rem| - 1], g, k) + (if judge(g, last) == k then [last] else [])
  }

  /** `partition(rem, g)`: one pass over `rem`, appending each answer to the
      group of its code. Every key is a code some answer produces, and every
      group is exactly the reference group of its key. */
  function Partition(judge: JudgeFn, rem: seq<Answer>, g: Guess): (p: map<Judge, seq<Answer>>)
    ensures p.Keys == Codes(judge, rem, g)
    ensures forall k :: k in p ==> p[k] == Group(judge, rem, g, k)
  {
    if rem == [] then map[]
    else
      var init := rem[..|rem| - 1];
      var p := Partition(judge, init, g);
      var last := rem[|rem| - 1];
      var k := judge(g, last);
      var p' := p[k := (if k in p then p[k] else []) + [last]];
      CodesSnoc(judge, init, last, g);
      assert rem == init + [last];
      assert k !in p ==> Group(judge, init, g, k) == [] by {
        if k !in p && Group(judge, init, g, k) != [] {
          GroupMembers(judge, init, g, k, Group(judge, init, g, k)[0]);
        }
      }
      p'
  }

  /** Appending an answer adds exactly its code to the set of codes. */
  lemma CodesSnoc(judge: JudgeFn, init: seq<Answer>, last: Answer, g: Guess)
    ensures Codes(judge, init + [last], g) == Codes(judge, init, g) + {judge(g, last)}
  {
    var rem := init + [last];
    forall c | c in Codes(judge, rem, g)
      ensures c in Codes(judge, init, g) + {judge(g, last)}
    {
      var a :| a in rem && judge(g, a) == c;
      if a != last {
        assert a in init;
      }
    }
  }

  /** An answer is in the group of `k` exactly when it is in `rem` and produces `k`. */
  lemma {:induction false} GroupMembers(judge: JudgeFn, rem: seq<Answer>, g: Guess, k: Judge, x: Answer)
    ensures x in Group(judge, rem, g, k) <==> x in rem && judge(g, x) == k
  {
    if rem != [] {
      var init := rem[..|rem| - 1];
      GroupMembers(judge, init, g, k, x);
      assert rem == init + [rem[|rem| - 1]];
    }
  }

  /** A group keeps every occurrence of its members: multiplicities agree with `rem`. */
  lemma {:induction false} GroupCount(judge: JudgeFn, rem: seq<Answer>, g: Guess, k: Judge, x: Answer)
    ensures multiset(Group(judge, rem, g, k))[x] == if judge(g, x) == k then multiset(rem)[x] else 0
  {
    if rem != [] {
      var init := rem[..|rem| - 1];
      GroupCount(judge, init, g, k, x);
      assert rem == init + [rem[|rem| - 1]];
    }
  }

  /** A group is an order-preserving subsequence of `rem`. */
  lemma {:induction false} GroupIsSubsequence(judge: JudgeFn, rem: seq<Answer>, g: Guess, k: Judge)
    ensures IsSubsequence(Group(judge, rem, g, k), rem)
  {
    if rem != [] {
      var init := rem[..|rem| - 1];
      var last := rem[|rem| - 1];
      var gr := Group(judge, init, g, k);
      GroupIsSubsequence(judge, init, g, k);
      assert rem[..|rem| - 1] == init;
      if judge(g, last) == k {
        var s := gr + [last];
        assert s[..|s| - 1] == gr;
        assert IsSubsequence(s, rem);
      } else {
        assert Group(judge, rem, g, k) == gr;
        assert IsSubsequence(gr, rem);
      }
    }
  }

  /** Groups of `partition` are non-empty, order-preserving subsequences of
      `rem` whose members all produce the group's key. */
  lemma PartitionGroupsAreSubsequences(judge: JudgeFn, rem: seq<Answer>, g: Guess, k: Judge)
    requires k in Partition(judge, rem, g)
    ensures var group := Partition(judge, rem, g)[k];
      && group != []
      && IsSubsequence(group, rem)
      && forall x :: x in group ==> x in rem && judge(g, x) == k
  {
    var a :| a in rem && judge(g, a) == k;
    GroupMembers(judge, rem, g, k, a);
    GroupIsSubsequence(judge, rem, g, k);
    forall x | x in Group(judge, rem, g, k)
      ensures x in rem && judge(g, x) == k
    {
      GroupMembers(judge, rem, g, k, x);
    }
  }

  /** `partition` is exhaustive and disjoint: every answer of `rem` lies, with
      all its occurrences, in the group of its own code, and (by the lemma
      above) in no group of another code. */
  lemma {:induction false} PartitionCovers(judge: JudgeFn, rem: seq<Answer>, g: Guess, x: Answer)
    requires x in rem
    ensures var p := Partition(judge, rem, g);
      && judge(g, x) in p
      && multiset(p[judge(g, x)])[x] == multiset(rem)[x]
  {
    GroupCount(judge, rem, g, judge(g, x), x);
  }
}
