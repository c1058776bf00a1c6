/** The decision tree of `src/bin/tree.rs`: nodes, the recursive builder
    `DecisionTree::build` with its invariant checks, and the invariants every
    built tree satisfies. */
module DecisionTrees {
  import opened Results
  import opened Judging

  /** A tree vertex: the guess to play, the answers still consistent with
      the path to it, and one child per feedback code (none at a leaf). */
  datatype Node = Node(guess: Guess, remAns: seq<Answer>, edges: map<Judge, Node>)

  /** The builder's inputs: `guessSeq[a]` is the predetermined sequence of
      guesses that solves answer `a`, and `judge` scores a guess against an
      answer. */
  datatype DecisionTree = DecisionTree(guessSeq: seq<seq<Guess>>, judge: JudgeFn)

  /** Why `build` gives up; each kind is an abort of the original program. */
  datatype BuildError =
    | EmptyRemaining(depth: nat)                        // `rem_ans[0]` on an empty list
    | AnswerOutOfRange(answer: Answer)                  // `guess_seq[a]` past the end
    | SequenceLengthMismatch(answer: Answer, depth: nat) // leaf sequence does not end here
    | SequenceGuessMismatch(answer: Answer, depth: nat)  // leaf's last guess is not the answer
    | SequenceTooShort(answer: Answer, depth: nat)       // no guess prescribed at this depth
    | SequenceInconsistency(answer: Answer, depth: nat)  // disagrees with the node's guess

  /** The leaf that identifies answer `a`. */
  function Leaf(a: Answer): Node
  {
    Node(a, [a], map[])
  }

  /** `a` has a sequence whose guess at `depth` is `guess`. */
  predicate Prescribes(t: DecisionTree, a: Answer, depth: nat, guess: Guess)
  {
    a < |t.guessSeq| && depth < |t.guessSeq[a]| && t.guessSeq[a][depth] == guess
  }

  /** What each error of `build` means about the guess sequences: the answer
      it names is out of range, or its sequence is shorter than, or ends
      elsewhere than, or at the depth it names disagrees with another
      answer's sequence, at a depth at or below `depth`. */
  predicate Explains(t: DecisionTree, e: BuildError, depth: nat)
  {
    match e
    case EmptyRemaining(d) => d >= depth
    case AnswerOutOfRange(a) => a >= |t.guessSeq|
    case SequenceLengthMismatch(a, d) => d >= depth && a < |t.guessSeq| && |t.guessSeq[a]| != d + 1
    case SequenceGuessMismatch(a, d) => d >= depth && a < |t.guessSeq| && |t.guessSeq[a]| == d + 1 && t.guessSeq[a][d] != a
    case SequenceTooShort(a, d) => d >= depth && a < |t.guessSeq| && |t.guessSeq[a]| <= d
    case SequenceInconsistency(a, d) => d >= depth && a < |t.guessSeq| && d < |t.guessSeq[a]| && exists b: Answer :: b < |t.guessSeq| && d < |t.guessSeq[b]| && t.guessSeq[b][d] != t.guessSeq[a][d]
  }

  /** The length of the longest guess sequence; it bounds the depth of the tree. */
  function MaxLen(seqs: seq<seq<Guess>>): (m: nat)
    ensures forall i :: 0 <= i < |seqs| ==> |seqs[i]| <= m
    ensures seqs != [] ==> exists i :: 0 <= i < |seqs| && |seqs[i]| == m
  {
    if seqs == [] then 0
    else
      var m := MaxLen(seqs[..|seqs| - 1]);
      var last := |seqs[|seqs| - 1]|;
      if last > m then last else m
  }

  /** The consistency loop of `build` over `rem[from..]`: it passes exactly
      when every answer there prescribes `guess` at `depth`, and otherwise
      names the first answer that does not. */
  function CheckAgree(t: DecisionTree, rem: seq<Answer>, from: nat, depth: nat, guess: Guess): (r: Option<BuildError>)
    requires from <= |rem|
    decreases |rem| - from
    ensures r.None? <==> forall i :: from <= i < |rem| ==> Prescribes(t, rem[i], depth, guess)
    ensures r.Some? ==> !r.value.EmptyRemaining? && exists i :: (
      && from <= i < |rem|
      && r.value.answer == rem[i]
      && !Prescribes(t, rem[i], depth, guess)
      && forall j :: from <= j < i ==> Prescribes(t, rem[j], depth, guess))
    ensures r.Some? ==> (
      var a := r.value.answer;
      && (a >= |t.guessSeq| <==> r.value.AnswerOutOfRange?)
      && (a < |t.guessSeq| && |t.guessSeq[a]| <= depth <==> r.value == SequenceTooShort(a, depth))
      && (a < |t.guessSeq| && depth < |t.guessSeq[a]| <==> r.value == SequenceInconsistency(a, depth)))
  {
    if from == |rem| then None
    else
      var a := rem[from];
      if a >= |t.guessSeq| then Some(AnswerOutOfRange(a))
      else if |t.guessSeq[a]| <= depth then Some(SequenceTooShort(a, depth))
      else if t.guessSeq[a][depth] != guess then Some(SequenceInconsistency(a, depth))
      else CheckAgree(t, rem, from + 1, depth, guess)
  }

  /** Scans the answers of `rem` in order and reports the failure of the
      first child (keyed by that answer's code) that failed. */
  function FirstFailure<T, E>(judge: JudgeFn, guess: Guess, rem: seq<Answer>, children: map<Judge, Result<T, E>>): (r: Option<E>)
    requires forall a :: a in rem ==> judge(guess, a) in children
    ensures r.None? <==> forall a :: a in rem ==> children[judge(guess, a)].Success?
    ensures r.Some? ==> exists a :: a in rem && children[judge(guess, a)] == Failure(r.value)
  {
    if rem == [] then None
    else
      var c := children[judge(guess, rem[0])];
      if c.Failure? then Some(c.error)
      else
        var r := FirstFailure(judge, guess, rem[1..], children);
        assert forall a :: a in rem ==> a == rem[0] || a in rem[1..];
        r
  }

  /** The tail of `build` at an internal node: given the built child for
      every code of `rem`, the node exists exactly when every child was
      built, and then carries exactly those children; otherwise the failure
      of some child is reported. */
  function Assemble(t: DecisionTree, rem: seq<Answer>, guess: Guess, children: map<Judge, Result<Node, BuildError>>): (r: Result<Node, BuildError>)
    requires children.Keys == Codes(t.judge, rem, guess)
    ensures r.Success? <==> forall k :: k in children ==> children[k].Success?
    ensures r.Success? ==>
      && r.value.guess == guess
      && r.value.remAns == rem
      && r.value.edges.Keys == children.Keys
      && forall k :: k in children ==> children[k] == Success(r.value.edges[k])
    ensures r.Failure? ==> exists k :: k in children && children[k] == Failure(r.error)
  {
    match FirstFailure(t.judge, guess, rem, children)
    case Some(e) => Failure(e)
    case None =>
      assert forall k :: k in children ==> children[k].Success? by {
        forall k | k in children ensures children[k].Success? {
          var a :| a in rem && t.judge(guess, a) == k;
        }
      }
      Success(Node(guess, rem, map k | k in children :: children[k].value))
  }

  /** `DecisionTree::build(rem_ans, depth)`. A single answer becomes a leaf
      once its sequence is checked to end at this depth with the answer
      itself. Otherwise the first answer's guess at this depth is the node's
      guess, every answer must prescribe it, and each group of the partition
      by code becomes a child built one level deeper. */
  function Build(t: DecisionTree, rem: seq<Answer>, depth: nat): (r: Result<Node, BuildError>)
    decreases MaxLen(t.guessSeq) - depth, 1
    ensures r.Success? ==> r.value.remAns == rem
    ensures r.Success? ==> forall a :: a in rem ==> Prescribes(t, a, depth, r.value.guess)
    ensures r.Success? && |rem| == 1 ==>
      r.value == Leaf(rem[0]) && rem[0] < |t.guessSeq| && |t.guessSeq[rem[0]]| == depth + 1
    ensures r.Success? && |rem| != 1 ==>
      && |rem| >= 2
      && r.value.edges.Keys == Codes(t.judge, rem, r.value.guess)
      && forall k :: k in r.value.edges ==> r.value.edges[k].remAns == Group(t.judge, rem, r.value.guess, k)
    ensures rem == [] ==> r == Failure(EmptyRemaining(depth))
    ensures r.Failure? ==> Explains(t, r.error, depth)
    ensures r.Failure? ==> if r.error.EmptyRemaining? then rem == [] else r.error.answer in rem
  {
    if |rem| == 1 then
      var a := rem[0];
      if a >= |t.guessSeq| then Failure(AnswerOutOfRange(a))
      else if |t.guessSeq[a]| != depth + 1 then Failure(SequenceLengthMismatch(a, depth))
      else if t.guessSeq[a][depth] != a then Failure(SequenceGuessMismatch(a, depth))
      else Success(Leaf(a))
    else if rem == [] then Failure(EmptyRemaining(depth))
    else
      var first := rem[0];
      if first >= |t.guessSeq| then Failure(AnswerOutOfRange(first))
      else if |t.guessSeq[first]| <= depth then Failure(SequenceTooShort(first, depth))
      else
        var guess := t.guessSeq[first][depth];
        match CheckAgree(t, rem, 1, depth, guess)
        case Some(e) =>
          assert e.SequenceInconsistency? ==> Prescribes(t, first, depth, guess);
          Failure(e)
        case None =>
          assert forall a :: a in rem ==> Prescribes(t, a, depth, guess) by {
            forall a | a in rem ensures Prescribes(t, a, depth, guess) {
              var i :| 0 <= i < |rem| && rem[i] == a;
            }
          }
          var groups := Partition(t.judge, rem, guess);
          var children := BuildChildren(t, groups, depth + 1);
          ChildFailureInRem(t, rem, guess, groups, children);
          Assemble(t, rem, guess, children)
  }

  /** A failure propagated from a child names an answer of the child's
      group, hence of `rem`; groups are never empty, so it is never the
      empty-list error. */
  lemma ChildFailureInRem(t: DecisionTree, rem: seq<Answer>, guess: Guess,
                          groups: map<Judge, seq<Answer>>, children: map<Judge, Result<Node, BuildError>>)
    requires groups == Partition(t.judge, rem, guess)
    requires children.Keys == groups.Keys
    requires forall k :: k in children && children[k].Failure? ==>
      if children[k].error.EmptyRemaining? then groups[k] == [] else children[k].error.answer in groups[k]
    ensures Assemble(t, rem, guess, children).Failure? ==>
      !Assemble(t, rem, guess, children).error.EmptyRemaining? && Assemble(t, rem, guess, children).error.answer in rem
  {
    var r := Assemble(t, rem, guess, children);
    if r.Failure? {
      var k :| k in children && children[k] == Failure(r.error);
      var a :| a in rem && t.judge(guess, a) == k;
      GroupMembers(t.judge, rem, guess, k, a);
      GroupMembers(t.judge, rem, guess, k, r.error.answer);
    }
  }

  /** The recursive calls of `build`: one child per group, built at the
      depth below the node. A guess exists at `depth - 1`, so `depth` is at
      most the longest sequence length. */
  function BuildChildren(t: DecisionTree, groups: map<Judge, seq<Answer>>, depth: nat): (children: map<Judge, Result<Node, BuildError>>)
    requires depth <= MaxLen(t.guessSeq)
    decreases MaxLen(t.guessSeq) - depth + 1, 0
    ensures children.Keys == groups.Keys
    ensures forall k :: k in children && children[k].Success? ==> children[k].value.remAns == groups[k]
    ensures forall k :: k in children && children[k].Failure? ==> Explains(t, children[k].error, depth)
    ensures forall k :: k in children && children[k].Failure? ==>
      if children[k].error.EmptyRemaining? then groups[k] == [] else children[k].error.answer in groups[k]
  {
    map k | k in groups :: Build(t, groups[k], depth)
  }

  /** The invariants of a tree at `depth`, stated independently of `build`:
      every remaining answer prescribes the node's guess at this depth; a
      node is a leaf exactly when one answer remains, and then it plays
      that answer as the last guess of its sequence; an internal node has
      one child per code its answers produce, holding exactly the answers of
      that code, each child valid one level deeper. */
  ghost predicate ValidTree(t: DecisionTree, n: Node, depth: nat)
    decreases n
  {
    && n.remAns != []
    && (forall a :: a in n.remAns ==> Prescribes(t, a, depth, n.guess))
    && if |n.remAns| == 1 then
         && n == Leaf(n.remAns[0])
         && n.guess < |t.guessSeq|
         && |t.guessSeq[n.guess]| == depth + 1
       else
         && n.edges.Keys == Codes(t.judge, n.remAns, n.guess)
         && forall k :: k in n.edges ==>
              && n.edges[k].remAns == Group(t.judge, n.remAns, n.guess, k)
              && ValidTree(t, n.edges[k], depth + 1)
  }

  /** Every tree `build` returns satisfies the invariants at every node. */
  lemma {:induction false} BuildSound(t: DecisionTree, rem: seq<Answer>, depth: nat)
    requires Build(t, rem, depth).Success?
    ensures ValidTree(t, Build(t, rem, depth).value, depth)
    decreases MaxLen(t.guessSeq) - depth
  {
    var n := Build(t, rem, depth).value;
    if |rem| != 1 {
      forall k | k in n.edges
        ensures ValidTree(t, n.edges[k], depth + 1)
      {
        BuildChild(t, rem, depth, k);
        BuildSound(t, Partition(t.judge, rem, n.guess)[k], depth + 1);
      }
      ValidInternal(t, n, depth);
    }
  }

  /** Each child of a built internal node is what `build` returns for its
      group one level deeper. */
  lemma {:induction false} BuildChild(t: DecisionTree, rem: seq<Answer>, depth: nat, k: Judge)
    requires Build(t, rem, depth).Success?
    requires |rem| != 1
    requires k in Build(t, rem, depth).value.edges
    ensures var n := Build(t, rem, depth).value;
      Build(t, Partition(t.judge, rem, n.guess)[k], depth + 1) == Success(n.edges[k])
  {
    var n := Build(t, rem, depth).value;
    BuildUnfold(t, rem, depth, n.guess);
    var children := BuildChildren(t, Partition(t.judge, rem, n.guess), depth + 1);
    assert children[k] == Success(n.edges[k]);
  }

  /** An internal node whose own invariants hold and whose children are
      valid one level deeper is valid. */
  lemma ValidInternal(t: DecisionTree, n: Node, depth: nat)
    requires |n.remAns| >= 2
    requires forall a :: a in n.remAns ==> Prescribes(t, a, depth, n.guess)
    requires n.edges.Keys == Codes(t.judge, n.remAns, n.guess)
    requires forall k :: k in n.edges ==> n.edges[k].remAns == Group(t.judge, n.remAns, n.guess, k)
    requires forall k :: k in n.edges ==> ValidTree(t, n.edges[k], depth + 1)
    ensures ValidTree(t, n, depth)
  {
  }

  /** Conversely, a tree satisfying the invariants is exactly what `build`
      returns for its answers: the invariants determine the tree. */
  lemma {:induction false} BuildComplete(t: DecisionTree, n: Node, depth: nat)
    requires ValidTree(t, n, depth)
    ensures Build(t, n.remAns, depth) == Success(n)
    decreases n
  {
    var rem := n.remAns;
    if |rem| == 1 {
      assert rem == [n.guess];
      assert Prescribes(t, n.guess, depth, n.guess);
      BuildSingleton(t, n.guess, depth);
    } else {
      assert forall a :: a in rem ==> Prescribes(t, a, depth, n.guess);
      BuildUnfold(t, rem, depth, n.guess);
      var groups := Partition(t.judge, rem, n.guess);
      var children := BuildChildren(t, groups, depth + 1);
      assert forall k :: k in groups ==> children[k] == Build(t, groups[k], depth + 1);
      forall k | k in groups
        ensures children[k] == Success(n.edges[k])
      {
        assert n.edges[k].remAns == groups[k];
        BuildComplete(t, n.edges[k], depth + 1);
      }
      AssembleValid(t, n, children);
    }
  }

  /** Assembling the children a node already has gives back that node. */
  lemma AssembleValid(t: DecisionTree, n: Node, children: map<Judge, Result<Node, BuildError>>)
    requires children.Keys == n.edges.Keys == Codes(t.judge, n.remAns, n.guess)
    requires forall k :: k in children ==> children[k] == Success(n.edges[k])
    ensures Assemble(t, n.remAns, n.guess, children) == Success(n)
  {
    var r := Assemble(t, n.remAns, n.guess, children);
    assert r.value.edges == n.edges;
  }

  /** At an internal node whose answers all prescribe `guess`, `build` is the
      assembly of the children built from the partition by `guess`. */
  lemma BuildUnfold(t: DecisionTree, rem: seq<Answer>, depth: nat, guess: Guess)
    requires |rem| >= 2
    requires forall a :: a in rem ==> Prescribes(t, a, depth, guess)
    ensures depth < MaxLen(t.guessSeq)
    ensures Build(t, rem, depth) == Assemble(t, rem, guess, BuildChildren(t, Partition(t.judge, rem, guess), depth + 1))
  {
    assert rem[0] in rem;
    assert CheckAgree(t, rem, 1, depth, guess) == None;
  }

  /** `build` succeeds with `n` exactly when `n` satisfies the invariants for
      the answers it was asked to build from. */
  lemma {:induction false} BuildCharacterization(t: DecisionTree, rem: seq<Answer>, depth: nat, n: Node)
    ensures Build(t, rem, depth) == Success(n) <==> ValidTree(t, n, depth) && n.remAns == rem
  {
    if Build(t, rem, depth) == Success(n) {
      BuildSound(t, rem, depth);
    }
    if ValidTree(t, n, depth) && n.remAns == rem {
      BuildComplete(t, n, depth);
    }
  }

  /** A single answer builds to its leaf exactly when its sequence ends at
      this depth with the answer itself; otherwise the length is checked
      before the final guess. */
  lemma BuildSingleton(t: DecisionTree, a: Answer, depth: nat)
    ensures Build(t, [a], depth).Success? <==>
      a < |t.guessSeq| && |t.guessSeq[a]| == depth + 1 && t.guessSeq[a][depth] == a
    ensures Build(t, [a], depth).Success? ==> Build(t, [a], depth).value == Leaf(a)
    ensures a < |t.guessSeq| && |t.guessSeq[a]| != depth + 1 ==>
      Build(t, [a], depth) == Failure(SequenceLengthMismatch(a, depth))
    ensures a < |t.guessSeq| && |t.guessSeq[a]| == depth + 1 && t.guessSeq[a][depth] != a ==>
      Build(t, [a], depth) == Failure(SequenceGuessMismatch(a, depth))
  {
  }

  /** With two or more answers the node plays the first answer's guess at
      this depth, and `build` fails, naming the first offender, as soon as
      another answer lacks that guess at this depth. */
  lemma BuildInternalGuess(t: DecisionTree, rem: seq<Answer>, depth: nat)
    requires |rem| >= 2
    ensures Build(t, rem, depth).Success? ==>
      Prescribes(t, rem[0], depth, Build(t, rem, depth).value.guess)
    ensures forall i :: (1 <= i < |rem| && rem[0] < |t.guessSeq| && depth < |t.guessSeq[rem[0]]|
      && !Prescribes(t, rem[i], depth, t.guessSeq[rem[0]][depth])
      && (forall j :: 1 <= j < i ==> Prescribes(t, rem[j], depth, t.guessSeq[rem[0]][depth]))
      ==> Build(t, rem, depth) == Failure(CheckAgree(t, rem, i, depth, t.guessSeq[rem[0]][depth]).value))
  {
    assert rem[0] in rem;
    if rem[0] < |t.guessSeq| && depth < |t.guessSeq[rem[0]]| {
      var guess := t.guessSeq[rem[0]][depth];
      forall i | 1 <= i < |rem| && !Prescribes(t, rem[i], depth, guess)
        && (forall j :: 1 <= j < i ==> Prescribes(t, rem[j], depth, guess))
        ensures CheckAgree(t, rem, 1, depth, guess) == CheckAgree(t, rem, i, depth, guess)
      {
        CheckAgreeSkips(t, rem, 1, i, depth, guess);
      }
    }
  }

  /** The consistency loop passes over answers that prescribe the guess. */
  lemma {:induction false} CheckAgreeSkips(t: DecisionTree, rem: seq<Answer>, from: nat, i: nat, depth: nat, guess: Guess)
    requires from <= i <= |rem|
    requires forall j :: from <= j < i ==> Prescribes(t, rem[j], depth, guess)
    ensures CheckAgree(t, rem, from, depth, guess) == CheckAgree(t, rem, i, depth, guess)
    decreases i - from
  {
    if from < i {
      CheckAgreeSkips(t, rem, from + 1, i, depth, guess);
    }
  }

  /** At an internal node of a valid tree the children partition the
      remaining answers: each answer lies in the child keyed by its own code
      against the node's guess, and in no other child. */
  lemma EdgesPartitionAnswers(t: DecisionTree, n: Node, depth: nat, a: Answer)
    requires ValidTree(t, n, depth)
    requires |n.remAns| >= 2
    requires a in n.remAns
    ensures t.judge(n.guess, a) in n.edges
    ensures a in n.edges[t.judge(n.guess, a)].remAns
    ensures forall k :: k in n.edges && a in n.edges[k].remAns ==> k == t.judge(n.guess, a)
  {
    GroupMembers(t.judge, n.remAns, n.guess, t.judge(n.guess, a), a);
    forall k | k in n.edges && a in n.edges[k].remAns
      ensures k == t.judge(n.guess, a)
    {
      GroupMembers(t.judge, n.remAns, n.guess, k, a);
    }
  }

  /** Following one edge of a valid tree: the node is internal, the child is
      valid one level deeper, and the child's answers are exactly the
      node's answers that produce the edge's code against the node's guess,
      in the node's order. */
  lemma ValidEdge(t: DecisionTree, n: Node, depth: nat, j: Judge)
    requires ValidTree(t, n, depth)
    requires j in n.edges
    ensures |n.remAns| >= 2
    ensures ValidTree(t, n.edges[j], depth + 1)
    ensures n.edges[j].remAns == Group(t.judge, n.remAns, n.guess, j)
    ensures forall a :: a in n.edges[j].remAns ==>
      && a in n.remAns
      && t.judge(n.guess, a) == j
      && Prescribes(t, a, depth, n.guess)
      && Prescribes(t, a, depth + 1, n.edges[j].guess)
  {
    var c := n.edges[j];
    forall a | a in c.remAns
      ensures a in n.remAns && t.judge(n.guess, a) == j
    {
      GroupMembers(t.judge, n.remAns, n.guess, j, a);
    }
  }
}
