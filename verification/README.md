# Decision tree for a Wordle-style game, modelled in Dafny

This project models the decision-tree core of `src/bin/tree.rs` from the
wordle-pokemon repository. It also proves properties of the model.

Every candidate answer comes with a fixed sequence of guesses that ends with
the answer itself. `DecisionTree::build` turns these sequences into one shared
tree, checking them as it goes:

- each node holds the guess to play and the answers still possible;
- each edge is labelled with a feedback code ("judge");
- a leaf is where a single answer remains.

`DecisionTree::next` follows a history of observed judges from a node. The
interactive loop packs the operator's five-digit feedback line into a judge.

Modules:

- `Results` (`results.dfy`): `Option` and `Result`. Every `assert!`, `unwrap`
  and out-of-bounds index that aborts the original is a `Failure` here.
- `Judging` (`judging.dfy`): answers, guesses and judges as indices. The
  scoring function `judge(guess, answer)` is an arbitrary total function.
  `Partition` models the judge table's `partition`. Its contract ties every
  group to an independent reference filter, `Group`.
- `DecisionTrees` (`tree.dfy`): `Node`, the builder `Build` with its checks,
  and `ValidTree`. `ValidTree` states the tree invariants without referring to
  `Build`. `BuildCharacterization` proves that `Build` returns exactly the
  trees satisfying them.
- `Navigation` (`navigation.dfy`): `Next`, the reference walk, and `Walk`, the
  loop as the original writes it. Also path consistency, composition of
  histories, and the round trip from the root to each answer's own leaf.
- `Feedback` (`feedback.dfy`): the length check and the digit packing
  `sum of digit_i << 2i`, and its base-4 round trip.
- `Scenario` (`scenario.dfy`): a three-answer universe worked through `Build`
  and `Next`.

Inputs that the original reads from outside are parameters here: the guess
sequences, the scoring function, and the answer list handed to `build`.

Modelling decisions on the code's failure paths and ordering:

- `build` on an empty list skips the one-answer branch and indexes
  `rem_ans[0]` at src/bin/tree.rs:41, which panics. The model returns
  `EmptyRemaining`.
- The code's separate aborts stay separate errors. `CheckAgree` and `Build`
  state which error each kind of sequence defect gives:
  - `SequenceTooShort`: the index at line 41 or the assertion at line 43;
  - `SequenceInconsistency`: the assertion at line 44;
  - `AnswerOutOfRange`: `guess_seq[a]` past the end of the sequence list.
- `JudgeTable::partition` is not part of this model. The model assumes a
  stable grouping, so each group keeps the order of the answer list passed
  in at line 47.

## Model

| member | source | states |
|---|---|---|
| `Judging.Partition` | src/bin/tree.rs:47 | The keys of `partition(rem, guess)` are exactly the codes that answers of `rem` produce against `guess`. Each key's group equals the reference filter of `rem` by that code. |
| `Judging.PartitionGroupsAreSubsequences` | src/bin/tree.rs:47 | Every group is non-empty and is an order-preserving subsequence of `rem`. All its members produce the group's key. |
| `Judging.PartitionCovers` | src/bin/tree.rs:47 | Every answer of `rem` lies in the group of its own code, with all its occurrences. So the groups are exhaustive, and with the lemma above, disjoint. |
| `Judging.GroupMembers` | src/bin/tree.rs:47 | An answer is in a code's group exactly when it is in `rem` and produces that code. |
| `Judging.GroupCount` | src/bin/tree.rs:47 | A group keeps each member's multiplicity from `rem`. Answers of other codes occur zero times. |
| `Judging.GroupIsSubsequence` | src/bin/tree.rs:47 | Grouping preserves the order of `rem`. |
| `DecisionTrees.CheckAgree` | src/bin/tree.rs:42-45 | The consistency loop passes exactly when every answer from position `from` on has a sequence long enough whose entry at `depth` is the guess. Otherwise it names the first answer that fails. The error is `AnswerOutOfRange` exactly when that answer has no sequence, `SequenceTooShort` at `depth` exactly when its sequence has no entry at `depth` (line 43), and `SequenceInconsistency` at `depth` exactly when the entry differs from the guess (line 44). |
| `DecisionTrees.FirstFailure` | src/bin/tree.rs:47-49 | No failure is reported exactly when every answer's child was built. A reported failure is the failure of some answer's child. |
| `DecisionTrees.Assemble` | src/bin/tree.rs:47-51 | The internal node exists exactly when every child was built. It then carries the node's guess, the whole answer list and exactly the built children. Otherwise a child's failure is propagated. |
| `DecisionTrees.BuildChildren` | src/bin/tree.rs:47-49 | One child per group of the partition, each built from that group. A child that fails names an answer of its own group, for a reason its sequences justify at the child's depth or deeper. |
| `DecisionTrees.Build` | src/bin/tree.rs:34-52 | A built node stores the answer list it was built from. Every answer in it prescribes the node's guess at this depth. A single answer yields the leaf of that answer, whose sequence ends here. Two or more answers yield edges keyed by exactly the codes produced, each child holding exactly its code's group. The empty-list error arises exactly for an empty list. Every other failure, at this node or below, names an answer of `rem`, and the sequences justify it: that answer is out of range, or its sequence is too short, ends elsewhere, or differs at the named depth (at or below this one) from another answer's sequence. |
| `DecisionTrees.BuildSound` | src/bin/tree.rs:34-52 | Every tree `build` returns satisfies the invariants at every node. These are path consistency, leaf correctness and the partition of answers among children. |
| `DecisionTrees.BuildComplete` | src/bin/tree.rs:34-52 | Every tree satisfying the invariants is what `build` returns for its answer list. |
| `DecisionTrees.BuildCharacterization` | src/bin/tree.rs:34-52 | `build(rem, depth)` succeeds with `n` if and only if `n` satisfies the invariants at `depth` and stores `rem`. |
| `DecisionTrees.BuildSingleton` | src/bin/tree.rs:35-38 | A single answer `a` builds if and only if its sequence has length `depth+1` and ends with `a`. The result is then the leaf with guess `a`, answers `[a]` and no edges. A wrong length is reported before a wrong final guess. |
| `DecisionTrees.BuildInternalGuess` | src/bin/tree.rs:41-45 | With two or more answers, the node's guess is the first answer's guess at this depth. If a later answer lacks that guess, `build` fails with the error for the first such answer. |
| `DecisionTrees.CheckAgreeSkips` | src/bin/tree.rs:42-45 | The consistency loop passes over answers that prescribe the guess. |
| `DecisionTrees.BuildChild` | src/bin/tree.rs:47-49 | Each child of a built node is `build(group, depth+1)` for the group of its key. |
| `DecisionTrees.EdgesPartitionAnswers` | src/bin/tree.rs:47-49 | At an internal node, each answer lies in the child keyed by its own code against the node's guess, and in no other child. |
| `DecisionTrees.ValidEdge` | src/bin/tree.rs:47-51 | Following any edge of a valid node leads to a valid child one level deeper. The child's answers are exactly the node's answers that produce the edge's code, in the node's order. |
| `Navigation.Next` | src/bin/tree.rs:55-61 | The walk fails only at the first judge that has no edge at the node reached by the judges before it. The failure names that judge and its position. |
| `Navigation.Walk` | src/bin/tree.rs:55-61 | The loop that replaces the current node by its edge for each judge computes exactly `Next`. |
| `Navigation.NextEmpty` | src/bin/tree.rs:55-60 | The empty history returns the start node itself. |
| `Navigation.NextCompose` | src/bin/tree.rs:56-59 | Walking `h1 + h2` equals walking `h1` and then `h2` from the node reached. A failure in `h1` is the failure of the whole walk. A failure in `h2` keeps its step, offset by `|h1|`. |
| `Navigation.StopsAtMissingEdge` | src/bin/tree.rs:58 | A judge missing from the current node's edges makes the whole walk fail at that step, whatever follows. |
| `Navigation.NextConsistent` | src/bin/tree.rs:55-61 | Walking a valid tree reaches a valid node at the depth the history's length gives. Every answer left there was at the start and is consistent with the history. |
| `Navigation.NextKeepsConsistent` | src/bin/tree.rs:55-61 | An answer consistent with the history is never lost: the walk succeeds and the answer remains at the node reached. |
| `Navigation.LastDepthIsLeaf` | src/bin/tree.rs:35-38 | A valid node holding `a` at the last depth of `a`'s sequence is `a`'s leaf. |
| `Navigation.RoundTripFrom` | src/bin/tree.rs:34-61 | From any valid node, take the judges answer `a` produces against its own remaining guesses. Walking them passes nodes playing exactly those guesses and ends at the leaf of `a`. |
| `Navigation.RoundTrip` | src/bin/tree.rs:34-61 | Suppose `build(all, 0)` succeeds and `a` is in `all`. Then the history `judge(seq[a][i], a)` for `i < k`, where `|seq[a]| = k+1`, leads from the root through guesses `seq[a][0..k]` to the leaf whose guess is `a` and whose answers are `[a]`. |
| `Feedback.Utf8Len` | src/bin/tree.rs:96-100 | The length that is checked is the UTF-8 byte count. It is at least the character count, and equals it exactly when every character is ASCII. |
| `Feedback.Digits` | src/bin/tree.rs:102-103 | An accepted line reads each character as an ASCII decimal digit below the limit. Otherwise the first offending position is named. |
| `Feedback.Pack` | src/bin/tree.rs:100-104 | A line that is not five bytes is refused with its byte length. A five-byte line whose characters are all decimal digits below the limit is accepted, and its judge is the packing of those digits. Otherwise the first offending position is named. `PackAsWritten` is `Pack` with limit 10, the code as written; `PackChecked` is `Pack` with limit 4, the corrected version. |
| `Feedback.PackedHorner` | src/bin/tree.rs:102-104 | The sum of `digit_i << 2i` is the first digit plus four times the packing of the rest. |
| `Feedback.UnpackPacked` | src/bin/tree.rs:101-104 | Digits below 4 are recovered field by field from their packing, which stays below `4^n`. |
| `Feedback.PackedBound` | src/bin/tree.rs:102-104 | Decimal digits pack to at most `3 * (4^n - 1)`. |
| `Feedback.PackAsWrittenBound` | src/bin/tree.rs:101-104 | A packed five-digit line is at most 3069, so the `u32` sum cannot overflow. |
| `Feedback.PackAsWrittenAliases` | src/bin/tree.rs:102-104 | The lines `40000` and `01000` differ, yet the packing as written maps both to judge 4. |
| `Feedback.PackCheckedRoundTrip` | src/bin/tree.rs:102-104 | With digits confined to their two-bit fields, the judge is below 1024. Unpacking it gives back the line's digits. |
| `Feedback.PackCheckedInjective` | src/bin/tree.rs:102-104 | With digits confined to their fields, two accepted lines with the same judge are the same line. |
| `Feedback.PackCheckedAgrees` | src/bin/tree.rs:100-104 | The field check only refuses lines. A line it accepts packs exactly as the original packs it. |
| `Scenario.ThreeAnswers` | src/bin/tree.rs:34-61 | Take answers 0, 1, 2 with sequences `[3, a]`, where guess 3 scores them 1, 2, 3. `build` returns the root playing 3 with leaves for codes 1, 2 and 3. The history `[2]` reaches the leaf of answer 1. The history `[0]` is an unknown transition at step 0. |
| `Scenario.ExpectedIsValid` | src/bin/tree.rs:34-52 | The expected three-leaf tree satisfies the tree invariants. |

## Left out

- Reading and parsing the guess-sequence file (`DecisionTree::new`, src/bin/tree.rs:24-32): file I/O and `parse().unwrap()`. The sequences are a parameter.
- Command-line parsing (src/bin/tree.rs:65-75) and the interactive loop of `main` (src/bin/tree.rs:77-111): console I/O. Only the pure packing expression is modelled. Also left out are `trim`, the printed messages, and the comparison with the all-correct constant that ends the session.
- `PokemonList`, `POKEMONS` and `ALL_CORRECT` are an external catalogue and constants. The answer list is a parameter of `Build`.
- The scoring algorithm and the internals of `JudgeTable` (module `wordle_pokemon::judge`) are not part of this model. `judge` is an arbitrary total function. `partition` is modelled by its grouping contract, so any index panic inside the judge table is not modelled.
- `JudgeTable::partition` is assumed to be stable: each group keeps the order of the answer list. Its source is not part of this model, so the order of the answers stored in each child is an assumption rather than something read from the code.
- `Rc` sharing is not modelled: nodes are immutable values.
- `HashMap` iteration order is not modelled. When several children fail, the original aborts on whichever the map visits first. The model reports the failing child whose code first occurs in the answer list.
- Integer widths (`usize`, the unspecified `Judge` type and the `as Judge` cast) are unbounded naturals here. `Feedback.PackAsWrittenBound` shows that packed values fit in twelve bits.
- The sum of the group sizes is not stated as a sum over the map. It is stated per answer, as equal multiplicities (`Judging.PartitionCovers`).

## Findings

| source | as written | input that shows it | evidently intended | confidence | as-written member | corrected member |
|---|---|---|---|---|---|---|
| src/bin/tree.rs:101-104 | Any decimal digit is shifted into the two-bit field at `2i`. A digit of 4 to 9 overflows into the next position's field. | The lines `40000` and `01000` are different feedback, and both give judge 4. | Each per-position digit fits its two-bit field (below 4). Otherwise the line is refused, so distinct lines give distinct judges. | medium, not executed | `Feedback.PackAsWrittenAliases` | `Feedback.PackCheckedInjective` |
