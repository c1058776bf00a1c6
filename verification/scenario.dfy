/** A three-answer universe: answers 0, 1 and 2 are each solved by playing
    guess 3 first and then the answer itself, and guess 3 gives each answer
    a different code. */
module Scenario {
  import opened Results
  import opened Judging
  import opened DecisionTrees
  import opened Navigation

  /** The tree the three sequences describe: guess 3 at the root, one leaf per code. */
  function Expected(): Node
  {
    Node(3, [0, 1, 2], map[1 := Leaf(0), 2 := Leaf(1), 3 := Leaf(2)])
  }

  /** `build` returns the expected tree; walking code 2 reaches the leaf of
      answer 1, and a code no answer produces is an unknown transition. */
  lemma {:induction false} ThreeAnswers(t: DecisionTree)
    requires t.guessSeq == [[3, 0], [3, 1], [3, 2]]
    requires t.judge(3, 0) == 1 && t.judge(3, 1) == 2 && t.judge(3, 2) == 3
    ensures Build(t, [0, 1, 2], 0) == Success(Expected())
    ensures Next(Expected(), [2]) == Success(Leaf(1))
    ensures Next(Expected(), [0]) == Failure(UnknownTransition(0, 0))
  {
    ExpectedIsValid(t);
    BuildComplete(t, Expected(), 0);
    ExpectedWalks();
  }

  /** Walking code 2 reaches the leaf of answer 1; code 0 has no edge. */
  lemma ExpectedWalks()
    ensures Next(Expected(), [2]) == Success(Leaf(1))
    ensures Next(Expected(), [0]) == Failure(UnknownTransition(0, 0))
  {
    assert [2][..0] == [] && [0][..0] == [];
  }

  /** The expected tree satisfies the tree invariants. */
  lemma {:induction false} ExpectedIsValid(t: DecisionTree)
    requires t.guessSeq == [[3, 0], [3, 1], [3, 2]]
    requires t.judge(3, 0) == 1 && t.judge(3, 1) == 2 && t.judge(3, 2) == 3
    ensures ValidTree(t, Expected(), 0)
  {
    RootIsValid(t, Expected());
  }

  /** A root shaped like the expected tree, given field by field rather than
      as one constructor term, satisfies the tree invariants. */
  lemma RootIsValid(t: DecisionTree, n: Node)
    requires t.guessSeq == [[3, 0], [3, 1], [3, 2]]
    requires t.judge(3, 0) == 1 && t.judge(3, 1) == 2 && t.judge(3, 2) == 3
    requires n.guess == 3 && n.remAns == [0, 1, 2]
    requires n.edges == map[1 := Leaf(0), 2 := Leaf(1), 3 := Leaf(2)]
    ensures ValidTree(t, n, 0)
  {
    RootPrescribes(t, n.remAns);
    ExpectedEdges(t, n.remAns, n.edges);
    ValidInternal(t, n, 0);
  }

  /** The root's edges are one valid leaf per code, holding that code's group. */
  lemma ExpectedEdges(t: DecisionTree, rem: seq<Answer>, edges: map<Judge, Node>)
    requires t.guessSeq == [[3, 0], [3, 1], [3, 2]]
    requires t.judge(3, 0) == 1 && t.judge(3, 1) == 2 && t.judge(3, 2) == 3
    requires rem == [0, 1, 2]
    requires edges == map[1 := Leaf(0), 2 := Leaf(1), 3 := Leaf(2)]
    ensures edges.Keys == Codes(t.judge, rem, 3)
    ensures forall k :: k in edges ==> edges[k].remAns == Group(t.judge, rem, 3, k) && ValidTree(t, edges[k], 1)
  {
    RootGroups(t.judge, rem);
    LeafIsValid(t, 0, 1);
    LeafIsValid(t, 1, 1);
    LeafIsValid(t, 2, 1);
    assert edges.Keys == {1, 2, 3};
  }

  /** Every answer's sequence starts with guess 3. */
  lemma RootPrescribes(t: DecisionTree, rem: seq<Answer>)
    requires t.guessSeq == [[3, 0], [3, 1], [3, 2]]
    requires rem == [0, 1, 2]
    ensures forall a :: a in rem ==> Prescribes(t, a, 0, 3)
  {
    assert forall a :: a in rem ==> a == 0 || a == 1 || a == 2;
  }

  /** The leaf of `a` is valid where `a`'s sequence ends with `a`. */
  lemma LeafIsValid(t: DecisionTree, a: Answer, depth: nat)
    requires Prescribes(t, a, depth, a) && |t.guessSeq[a]| == depth + 1
    ensures ValidTree(t, Leaf(a), depth)
  {
  }

  /** Guess 3 splits the three answers into three singleton groups. */
  lemma RootGroups(judge: JudgeFn, rem: seq<Answer>)
    requires rem == [0, 1, 2]
    requires judge(3, 0) == 1 && judge(3, 1) == 2 && judge(3, 2) == 3
    ensures Codes(judge, rem, 3) == {1, 2, 3}
    ensures Group(judge, rem, 3, 1) == [0]
    ensures Group(judge, rem, 3, 2) == [1]
    ensures Group(judge, rem, 3, 3) == [2]
  {
    assert rem[0] in rem && rem[1] in rem && rem[2] in rem;
    var r1, r2 := rem[..1], rem[..2];
    assert r2[..1] == r1 && r1[..0] == [];
    assert Group(judge, [], 3, 1) == [] && Group(judge, [], 3, 2) == [] && Group(judge, [], 3, 3) == [];
    assert Group(judge, r1, 3, 1) == [0];
    assert Group(judge, r1, 3, 2) == [];
    assert Group(judge, r1, 3, 3) == [];
    assert Group(judge, r2, 3, 1) == [0];
    assert Group(judge, r2, 3, 2) == [1];
    assert Group(judge, r2, 3, 3) == [];
  }
}
