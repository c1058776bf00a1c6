/** `DecisionTree::next`: following a history of observed judges from a
    node, and what a history tells about the answers left at the node it
    reaches. */
module Navigation {
  import opened Results
  import opened Judging
  import opened DecisionTrees

  /** The judge at position `step` of the history has no edge at the node
      reached by the judges before it (a missing `HashMap` key). */
  datatype NavError = UnknownTransition(judge: Judge, step: nat)

  /** Reference definition of the walk: the node reached by all but the
      last judge, then that node's edge for the last judge. A failure names
      the first judge of the history that has no edge. */
  function Next(node: Node, history: seq<Judge>): (r: Result<Node, NavError>)
    ensures r.Failure? ==>
      && r.error.step < |history|
      && r.error.judge == history[r.error.step]
      && Next(node, history[..r.error.step]).Success?
      && r.error.judge !in Next(node, history[..r.error.step]).value.edges
  {
    if history == [] then Success(node)
    else
      var init := history[..|history| - 1];
      var j := history[|history| - 1];
      match Next(node, init)
      case Failure(e) =>
        assert history[..e.step] == init[..e.step];
        Failure(e)
      case Success(v) =>
        if j in v.edges then Success(v.edges[j])
        else Failure(UnknownTransition(j, |history| - 1))
  }

  /** The walk as the original writes it: a loop replacing the current node
      by its edge for each judge in turn. It computes `Next`. */
  method Walk(node: Node, history: seq<Judge>) returns (r: Result<Node, NavError>)
    ensures r == Next(node, history)
  {
    var v := node;
    var i := 0;
    while i < |history|
      invariant 0 <= i <= |history|
      invariant Next(node, history[..i]) == Success(v)
    {
      var j := history[i];
      assert history[..i + 1][..i] == history[..i];
      if j !in v.edges {
        StopsAtMissingEdge(node, history, i);
        return Failure(UnknownTransition(j, i));
      }
      v := v.edges[j];
      i := i + 1;
    }
    assert history[..i] == history;
    return Success(v);
  }

  /** Renumbers the failure step of a walk that started `offset` judges later. */
  function Shift(r: Result<Node, NavError>, offset: nat): Result<Node, NavError>
  {
    match r
    case Success(_) => r
    case Failure(e) => Failure(UnknownTransition(e.judge, e.step + offset))
  }

  /** The empty history leaves the walk where it started. */
  lemma NextEmpty(node: Node)
    ensures Next(node, []) == Success(node)
  {
  }

  /** Walking `h1 + h2` is walking `h1` and then `h2` from where it ended;
      a failure in `h1` is the failure of the whole walk. */
  lemma {:induction false} NextCompose(node: Node, h1: seq<Judge>, h2: seq<Judge>)
    ensures Next(node, h1 + h2) ==
      match Next(node, h1)
      case Failure(e) => Failure(e)
      case Success(m) => Shift(Next(m, h2), |h1|)
  {
    if h2 == [] {
      assert h1 + h2 == h1;
    } else {
      var init := h2[..|h2| - 1];
      NextCompose(node, h1, init);
      assert (h1 + h2)[..|h1 + h2| - 1] == h1 + init;
    }
  }

  /** A judge with no edge at the node the history has reached so far makes
      the walk fail at exactly that step, whatever follows it. */
  lemma StopsAtMissingEdge(node: Node, history: seq<Judge>, i: nat)
    requires i < |history|
    requires Next(node, history[..i]).Success?
    requires history[i] !in Next(node, history[..i]).value.edges
    ensures Next(node, history) == Failure(UnknownTransition(history[i], i))
  {
    assert history[..i + 1][..i] == history[..i];
    NextCompose(node, history[..i + 1], history[i + 1..]);
    assert history[..i + 1] + history[i + 1..] == history;
  }

  /** Answer `a` is consistent with `history` observed from `depth`: its
      sequence still prescribes a guess after the history, and each judge of
      the history is what `a` produces against the guess its sequence
      prescribes at that step. */
  ghost predicate ConsistentWith(t: DecisionTree, a: Answer, depth: nat, history: seq<Judge>)
  {
    && a < |t.guessSeq|
    && depth + |history| < |t.guessSeq[a]|
    && forall i :: 0 <= i < |history| ==> history[i] == t.judge(t.guessSeq[a][depth + i], a)
  }

  /** Path consistency: walking a valid tree stays in valid subtrees, and
      every answer left at the node reached was already at the start and is
      consistent with the history. */
  lemma {:induction false} NextConsistent(t: DecisionTree, n: Node, depth: nat, history: seq<Judge>)
    requires ValidTree(t, n, depth)
    requires Next(n, history).Success?
    ensures ValidTree(t, Next(n, history).value, depth + |history|)
    ensures forall a :: a in Next(n, history).value.remAns ==>
      a in n.remAns && ConsistentWith(t, a, depth, history)
  {
    if history != [] {
      var init := history[..|history| - 1];
      var j := history[|history| - 1];
      NextConsistent(t, n, depth, init);
      var v := Next(n, init).value;
      var m := v.edges[j];
      assert Next(n, history) == Success(m);
      ValidEdge(t, v, depth + |init|, j);
      forall a | a in m.remAns
        ensures a in n.remAns && ConsistentWith(t, a, depth, history)
      {
        assert history == init + [j];
        ConsistentSnoc(t, a, depth, init, j);
      }
    }
  }

  /** Extending a consistent history by the code the answer produces
      against its next guess keeps it consistent. */
  lemma ConsistentSnoc(t: DecisionTree, a: Answer, depth: nat, init: seq<Judge>, j: Judge)
    requires ConsistentWith(t, a, depth, init)
    requires depth + |init| + 1 < |t.guessSeq[a]|
    requires j == t.judge(t.guessSeq[a][depth + |init|], a)
    ensures ConsistentWith(t, a, depth, init + [j])
  {
  }

  /** Conversely, an answer of the start node that is consistent with the
      history is never lost: the walk succeeds and keeps it. */
  lemma {:induction false} NextKeepsConsistent(t: DecisionTree, n: Node, depth: nat, history: seq<Judge>, a: Answer)
    requires ValidTree(t, n, depth)
    requires a in n.remAns
    requires ConsistentWith(t, a, depth, history)
    ensures Next(n, history).Success?
    ensures a in Next(n, history).value.remAns
  {
    if history != [] {
      var init := history[..|history| - 1];
      var j := history[|history| - 1];
      assert ConsistentWith(t, a, depth, init);
      NextKeepsConsistent(t, n, depth, init, a);
      NextConsistent(t, n, depth, init);
      var v := Next(n, init).value;
      assert Prescribes(t, a, depth + |init|, v.guess);
      assert j == t.judge(v.guess, a);
      assert |v.remAns| >= 2;
      EdgesPartitionAnswers(t, v, depth + |init|, a);
    }
  }

  /** A node of a valid tree holding `a` at the last depth of `a`'s
      sequence is the leaf of `a`. */
  lemma LastDepthIsLeaf(t: DecisionTree, n: Node, depth: nat, a: Answer)
    requires ValidTree(t, n, depth)
    requires a in n.remAns
    requires depth + 1 == |t.guessSeq[a]|
    ensures n == Leaf(a)
  {
    if |n.remAns| >= 2 {
      EdgesPartitionAnswers(t, n, depth, a);
      assert false;
    }
  }

  /** The judges answer `a` produces against the guesses its sequence
      prescribes from `depth` up to, but not including, its last guess. */
  function PathJudges(t: DecisionTree, a: Answer, depth: nat): (h: seq<Judge>)
    requires a < |t.guessSeq| && depth < |t.guessSeq[a]|
    ensures |h| + depth + 1 == |t.guessSeq[a]|
    ensures forall i :: 0 <= i < |h| ==> h[i] == t.judge(t.guessSeq[a][depth + i], a)
  {
    seq(|t.guessSeq[a]| - 1 - depth, i requires 0 <= i < |t.guessSeq[a]| - 1 - depth =>
      t.judge(t.guessSeq[a][depth + i], a))
  }

  /** Round trip from any node of a valid tree: feeding back the judges an
      answer produces against its own guesses passes through nodes playing
      exactly those guesses and ends at the answer's leaf. */
  lemma RoundTripFrom(t: DecisionTree, n: Node, depth: nat, a: Answer)
    requires ValidTree(t, n, depth)
    requires a in n.remAns
    ensures a < |t.guessSeq| && depth < |t.guessSeq[a]|
    ensures Next(n, PathJudges(t, a, depth)) == Success(Leaf(a))
    ensures var h := PathJudges(t, a, depth);
      forall i :: 0 <= i <= |h| ==>
        Next(n, h[..i]).Success? && Next(n, h[..i]).value.guess == t.guessSeq[a][depth + i]
  {
    var h := PathJudges(t, a, depth);
    forall i | 0 <= i <= |h|
      ensures Next(n, h[..i]).Success? && Next(n, h[..i]).value.guess == t.guessSeq[a][depth + i]
    {
      assert ConsistentWith(t, a, depth, h[..i]);
      NextKeepsConsistent(t, n, depth, h[..i], a);
      NextConsistent(t, n, depth, h[..i]);
      assert Prescribes(t, a, depth + i, Next(n, h[..i]).value.guess);
    }
    assert h[..|h|] == h;
    assert ConsistentWith(t, a, depth, h);
    NextKeepsConsistent(t, n, depth, h, a);
    NextConsistent(t, n, depth, h);
    LastDepthIsLeaf(t, Next(n, h).value, depth + |h|, a);
  }

  /** Round trip from the root: if the tree for all answers builds, every
      answer's own judges lead from the root along its guess sequence to the
      leaf naming it. */
  lemma {:induction false} RoundTrip(t: DecisionTree, all: seq<Answer>, a: Answer)
    requires Build(t, all, 0).Success?
    requires a in all
    ensures a < |t.guessSeq| && 0 < |t.guessSeq[a]|
    ensures var root := Build(t, all, 0).value;
      var h := PathJudges(t, a, 0);
      && Next(root, h) == Success(Leaf(a))
      && forall i :: 0 <= i <= |h| ==>
           Next(root, h[..i]).Success? && Next(root, h[..i]).value.guess == t.guessSeq[a][i]
  {
    BuildSound(t, all, 0);
    RoundTripFrom(t, Build(t, all, 0).value, 0, a);
  }
}
