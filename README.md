# Reward-based move selection for an "Apologies" (Sorry!-style) game

This project models how the computer player of the `apologies` game scores a
position and picks its move. The model is written in Dafny, and its
properties are proved with Dafny.

- `reward.dfy` (module `Reward`) models version 1 of the reward calculator.
  A player's score is the sum of three incentives:
  - a distance incentive: 260 minus the pawns' total distance to home;
  - a safe incentive: 10 points per pawn that is in the safe zone or home;
  - a winner incentive: 100 points when every pawn is home.

  The reward of a view is the number of opponents times the player's score,
  minus the opponents' scores, clamped at 0. The proofs show the following
  for a well-formed player (four pawns, each at most 65 squares from home):
  the distance incentive lies in [0, 260], the safe incentive in [0, 40] and
  the score in [0, 400]. The reward lies in `range(players)`, which is
  [0, (players - 1) * 400], and its upper end is reached. The reward rises
  with the player's own score and falls as any opponent's score rises.
- `source.dfy` (module `Source`) models the reward input source:
  - `RewardV1InputSource.calculate` pairs a move with the reward of the view
    that the move leads to.
  - `RewardInputSource.choose_move` computes one pair per legal move and
    sorts the pairs in place, highest reward first. The sort is stable. It
    then returns the move at the top.

  The sort is an insertion sort on an array. It is proved to equal a
  functional stable sort, `SortDesc`, and that sort is proved to be ordered
  and a permutation of its input. The head of the sorted pairs is proved to
  be the first pair with the highest reward. So the chosen move is one of
  the legal moves, no legal move has a higher reward, and among tied moves
  the earliest one wins.

A pawn is a record `(distance, safe, home)`. The real game computes the
distance with `BoardRules.distance_to_home`, in `rules.py`, which is not part
of this model. Following the comment at `src/apologies/reward.py:80`, a
well-formed pawn is at most 65 squares from home. A player has
`AllPawnsInHome` when every pawn's `home` flag is set. This stands in for
`Player.all_pawns_in_home`, which lives in `game.py` and is not part of this
model. The move evaluator, which gives the view after a move, is a function
parameter the model does not look into.

## Model

| member | source | states |
|---|---|---|
| `Reward.Calculate` | src/apologies/reward.py:61-66 | the reward is never negative and never below the raw value `len(opponents) * score(player) - sum(score(opponent))`, and it is either that raw value or 0, i.e. the raw value clamped at 0 (the integer that `calculate`, lines 52-54, converts to a float) |
| `Reward.Range` | src/apologies/reward.py:56-58 | the range starts at 0 and is a proper interval for any game with at least one player |
| `Reward.WinnerIncentive` | src/apologies/reward.py:88-90 | the winner incentive is 100 exactly when all pawns are home, and 0 exactly when they are not |
| `Reward.TotalDistanceBounds` | src/apologies/reward.py:77-80 | pawns at most 65 squares from home have a total distance of at most 65 per pawn |
| `Reward.DistanceIncentiveBounds` | src/apologies/reward.py:77-80 | for four pawns each at most 65 from home, the distance incentive lies in [0, 260] |
| `Reward.TotalDistanceUpdate` | src/apologies/reward.py:79 | changing one pawn changes the summed distance by exactly that pawn's change |
| `Reward.DistanceIncentiveStep` | src/apologies/reward.py:77-80 | moving one pawn one square closer to home raises the distance incentive by exactly 1 |
| `Reward.SafeSumCounts` | src/apologies/reward.py:83-85 | the safe incentive equals 10 times the number of pawns in the safe zone or home |
| `Reward.SafeIncentiveBounds` | src/apologies/reward.py:83-85 | for four pawns the safe incentive is a multiple of 10 in [0, 40] |
| `Reward.CountAllHome` | src/apologies/reward.py:85 | when every pawn is home, every pawn counts toward the safe incentive |
| `Reward.PlayerScoreBounds` | src/apologies/reward.py:69-74 | a well-formed player's score, the sum of the three incentives, lies in [0, 400] |
| `Reward.PlayerScoreMaximal` | src/apologies/reward.py:69-90 | a well-formed player scores the full 400 if and only if all its pawns are home with no distance left |
| `Reward.ScoreSumBounds` | src/apologies/reward.py:64-65 | the summed scores of n well-formed opponents lie in [0, 400 * n] |
| `Reward.RewardInRange` | src/apologies/reward.py:56-66 | for a well-formed view with `players - 1` opponents, the reward lies within `range(players)`, i.e. in [0, (players - 1) * 400] |
| `Reward.RewardUpperBoundReached` | src/apologies/reward.py:56-58 | the top of `range(players)` is reached, by a winner facing opponents whose pawns are all 65 squares from home, so the range is tight |
| `Reward.RewardOfEvenPosition` | src/apologies/reward.py:61-66 | when every opponent scores the same as the player, the reward is 0 |
| `Reward.RewardMonotoneInPlayer` | src/apologies/reward.py:61-66 | replacing the player by one with a score at least as high never lowers the reward |
| `Reward.ScoreSumUpdate` | src/apologies/reward.py:64-65 | replacing one opponent changes the summed opponent scores by exactly that opponent's change |
| `Reward.RewardAntitoneInOpponent` | src/apologies/reward.py:61-66 | replacing any one opponent by a stronger one never raises the reward |
| `Source.Evaluate` | src/apologies/source.py:100-102 | the pair holds the input move unchanged, and the reward of the view that the evaluator gives for it, which is never negative |
| `Source.EvaluateAll` | src/apologies/source.py:86 | exactly one pair per legal move, in list order, pair i being the evaluation of move i |
| `Source.FirstBest` | src/apologies/source.py:87-88 | the index of the first maximum is an index into the evaluated pairs |
| `Source.FirstBestIsFirstMaximum` | src/apologies/source.py:87-88 | no pair has a higher reward than the pair at FirstBest, and every earlier pair has a strictly lower one |
| `Source.InsertDescSorted` | src/apologies/source.py:87 | inserting a pair into a sequence sorted highest-reward-first keeps it sorted, adds exactly one element and gives the expected head |
| `Source.InsertDescPermutation` | src/apologies/source.py:87 | inserting a pair adds exactly that pair to the multiset of pairs |
| `Source.SortDescSorted` | src/apologies/source.py:87 | the stable sort keeps the length and orders the pairs by reward, highest first |
| `Source.SortDescPermutation` | src/apologies/source.py:87 | the stable sort is a permutation of its input |
| `Source.SortDescHead` | src/apologies/source.py:87-88 | the head of the sorted pairs is the first pair with the highest reward, since ties keep their list order even though the sort is reversed |
| `Source.InsertedAt` | src/apologies/source.py:87 | the array left by shifting lower-reward pairs one place right and dropping the new pair into the gap is the stable insertion |
| `Source.InsertAt` | src/apologies/source.py:87 | one insertion step in place: the first i + 1 pairs become the stable insertion of pair i into the sorted first i, and the rest of the array is unchanged |
| `Source.SortByReward` | src/apologies/source.py:87 | the in-place sort leaves the array equal to the stable highest-reward-first sort of its old contents |
| `Source.ChooseMove` | src/apologies/source.py:82-88 | for a non-empty list of legal moves (there is always one, line 34), the move returned is the legal move at the first maximum of the evaluated pairs. It is a member of the legal moves, and no legal move has a higher reward. The list of legal moves is a value, so it is not changed |

## Left out

- The conversion of rewards and of the range to Python floats: rewards are modelled as integers. The values are integers before the conversion and, for any realistic number of players, exactly representable.
- `RandomInputSource.choose_move` is a plain random choice among the legal moves; randomness is not modelled.
- The `source()` factory looks a class up by name through runtime reflection (`pydoc.locate`, `issubclass`), which has no counterpart here.
- The abstract classes `CharacterInputSource` and `RewardCalculator`, and the abstract `RewardInputSource.calculate`, are interfaces without behaviour. `choose_move` is modelled with the calculation of `RewardV1InputSource`, its only concrete subclass.
- The `mode` argument of `choose_move` is not used by the reward source and is not modelled.
- `BoardRules.distance_to_home`, `Player.all_pawns_in_home` and the move evaluator are in `rules.py` and `game.py`, which are not part of this model. They appear as pawn fields and as a function parameter.
- The opponents of a view are a dictionary keyed by colour in the game. The reward only uses its values and its size, so they are modelled as a sequence.
- The game engine itself (board, deck, move generation and application) is not part of this model.
