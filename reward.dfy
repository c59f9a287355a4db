/** Version 1 of the reward calculation: how strong a player's position is,
    measured against the positions of all of its opponents.

    A pawn is described only by what the calculation asks of it: its distance
    to home, whether it is in its safe zone, and whether it is home. */
module Reward {

  /** Number of pawns a player owns. */
  const PawnsPerPlayer := 4
  /** Largest distance to home a pawn can have (a pawn in start). */
  const MaxDistance := 65
  /** Base of the distance incentive: 4 pawns at the largest distance each. */
  const DistanceBase := 260
  /** Points for each pawn in the safe zone or home. */
  const SafePoints := 10
  /** Points for having every pawn home. */
  const WinnerPoints := 100
  /** Largest score a player can have: 260 + 4 * 10 + 100. */
  const MaxScore := 400

  datatype Pawn = Pawn(distance: nat, safe: bool, home: bool)

  datatype Player = Player(pawns: seq<Pawn>)

  /** What a player sees of the game: itself and its opponents (the values of
      the opponents' dictionary, whose keys the reward never looks at). */
  datatype PlayerView = PlayerView(player: Player, opponents: seq<Player>)

  /** A player as the game builds it: four pawns, none farther than 65 squares from home. */
  predicate ValidPlayer(p: Player) {
    |p.pawns| == PawnsPerPlayer &&
    forall i :: 0 <= i < |p.pawns| ==> p.pawns[i].distance <= MaxDistance
  }

  predicate ValidPlayers(ps: seq<Player>) {
    forall i :: 0 <= i < |ps| ==> ValidPlayer(ps[i])
  }

  predicate ValidView(v: PlayerView) {
    ValidPlayer(v.player) && ValidPlayers(v.opponents)
  }

  predicate AllPawnsInHome(p: Player) {
    forall i :: 0 <= i < |p.pawns| ==> p.pawns[i].home
  }

  predicate SafeOrHome(pawn: Pawn) {
    pawn.home || pawn.safe
  }

  // ---------------------------------------------------------------------------
  // The three incentives
  // ---------------------------------------------------------------------------

  /** Sum of the pawns' distances to home. */
  function TotalDistance(pawns: seq<Pawn>): nat {
    if pawns == [] then 0 else pawns[0].distance + TotalDistance(pawns[1..])
  }

  /** One point for each square closer to home, for each pawn. */
  function DistanceIncentive(p: Player): int {
    DistanceBase - TotalDistance(p.pawns)
  }

  /** Sum over the pawns of 10 for a pawn in the safe zone or home, else 0. */
  function SafeSum(pawns: seq<Pawn>): int {
    if pawns == [] then 0
    else (if SafeOrHome(pawns[0]) then SafePoints else 0) + SafeSum(pawns[1..])
  }

  function SafeIncentive(p: Player): int {
    SafeSum(p.pawns)
  }

  /** Number of pawns that are in the safe zone or home (a reference count,
      independent of the points the incentive gives). */
  function CountSafeOrHome(pawns: seq<Pawn>): (n: nat)
    ensures n <= |pawns|
  {
    if pawns == [] then 0
    else CountSafeOrHome(pawns[..|pawns| - 1]) + (if SafeOrHome(pawns[|pawns| - 1]) then 1 else 0)
  }

  /** 100 points for having won the game, otherwise nothing. */
  function WinnerIncentive(p: Player): (r: int)
    ensures r == WinnerPoints <==> AllPawnsInHome(p)
    ensures r == 0 <==> !AllPawnsInHome(p)
  {
    if AllPawnsInHome(p) then WinnerPoints else 0
  }

  function PlayerScore(p: Player): int {
    DistanceIncentive(p) + SafeIncentive(p) + WinnerIncentive(p)
  }

  /** Sum of the scores of a sequence of players. */
  function ScoreSum(ps: seq<Player>): int {
    if ps == [] then 0 else PlayerScore(ps[0]) + ScoreSum(ps[1..])
  }

  /** The reward before it is clamped: the number of opponents times the
      player's score, less the opponents' scores. */
  function RawReward(v: PlayerView): int {
    |v.opponents| * PlayerScore(v.player) - ScoreSum(v.opponents)
  }

  /** The reward of a view: the raw reward, with a negative value replaced by 0.
      It is the least non-negative number not below the raw reward. */
  function Calculate(v: PlayerView): (r: int)
    ensures r >= 0 && r >= RawReward(v)
    ensures r == 0 || r == RawReward(v)
  {
    var reward := RawReward(v);
    if reward < 0 then 0 else reward
  }

  /** The interval the reward of a game of `players` players lies in:
      up to 400 points per opponent. */
  function Range(players: int): (r: (int, int))
    ensures r.0 == 0
    ensures players >= 1 ==> r.0 <= r.1
  {
    (0, (players - 1) * MaxScore)
  }

  // ---------------------------------------------------------------------------
  // The distance incentive
  // ---------------------------------------------------------------------------

  lemma {:induction false} TotalDistanceBounds(pawns: seq<Pawn>)
    requires forall i :: 0 <= i < |pawns| ==> pawns[i].distance <= MaxDistance
    ensures TotalDistance(pawns) <= MaxDistance * |pawns|
  {
    if pawns != [] {
      TotalDistanceBounds(pawns[1..]);
    }
  }

  /** For a well-formed player the distance incentive lies in [0, 260]. */
  lemma DistanceIncentiveBounds(p: Player)
    requires ValidPlayer(p)
    ensures 0 <= DistanceIncentive(p) <= DistanceBase
  {
    TotalDistanceBounds(p.pawns);
  }

  /** Changing one pawn changes the total distance by the change in that pawn's distance. */
  lemma {:induction false} TotalDistanceUpdate(pawns: seq<Pawn>, i: nat, pawn: Pawn)
    requires i < |pawns|
    ensures TotalDistance(pawns[i := pawn]) == TotalDistance(pawns) - pawns[i].distance + pawn.distance
  {
    if i == 0 {
      assert pawns[i := pawn][1..] == pawns[1..];
    } else {
      assert pawns[i := pawn][1..] == pawns[1..][i - 1 := pawn];
      TotalDistanceUpdate(pawns[1..], i - 1, pawn);
    }
  }

  /** The player with its pawn `i` one square closer to home. */
  function StepCloser(p: Player, i: nat): Player
    requires i < |p.pawns| && p.pawns[i].distance > 0
  {
    var pawn := p.pawns[i];
    Player(p.pawns[i := pawn.(distance := pawn.distance - 1)])
  }

  /** Moving one pawn one square closer to home raises the distance incentive by exactly 1. */
  lemma DistanceIncentiveStep(p: Player, i: nat)
    requires i < |p.pawns| && p.pawns[i].distance > 0
    ensures DistanceIncentive(StepCloser(p, i)) == DistanceIncentive(p) + 1
  {
    var pawn := p.pawns[i];
    TotalDistanceUpdate(p.pawns, i, pawn.(distance := pawn.distance - 1));
  }

  // ---------------------------------------------------------------------------
  // The safe incentive
  // ---------------------------------------------------------------------------

  lemma {:induction false} SafeSumLast(pawns: seq<Pawn>)
    requires pawns != []
    ensures SafeSum(pawns) ==
      SafeSum(pawns[..|pawns| - 1]) + (if SafeOrHome(pawns[|pawns| - 1]) then SafePoints else 0)
  {
    if |pawns| > 1 {
      assert pawns[1..][..|pawns[1..]| - 1] == pawns[..|pawns| - 1][1..];
      SafeSumLast(pawns[1..]);
    } else {
      assert pawns[1..] == [] && pawns[..0] == [];
    }
  }

  /** The safe incentive is 10 points per pawn that is in the safe zone or home. */
  lemma {:induction false} SafeSumCounts(pawns: seq<Pawn>)
    ensures SafeSum(pawns) == SafePoints * CountSafeOrHome(pawns)
  {
    if pawns != [] {
      SafeSumLast(pawns);
      SafeSumCounts(pawns[..|pawns| - 1]);
    }
  }

  /** For four pawns the safe incentive lies in [0, 40]. */
  lemma SafeIncentiveBounds(p: Player)
    requires |p.pawns| == PawnsPerPlayer
    ensures 0 <= SafeIncentive(p) <= SafePoints * PawnsPerPlayer
    ensures SafeIncentive(p) % SafePoints == 0
  {
    SafeSumCounts(p.pawns);
  }

  lemma {:induction false} CountAllHome(pawns: seq<Pawn>)
    requires forall i :: 0 <= i < |pawns| ==> pawns[i].home
    ensures CountSafeOrHome(pawns) == |pawns|
  {
    if pawns != [] {
      CountAllHome(pawns[..|pawns| - 1]);
    }
  }

  // ---------------------------------------------------------------------------
  // The player score
  // ---------------------------------------------------------------------------

  /** A well-formed player scores between 0 and 400. */
  lemma PlayerScoreBounds(p: Player)
    requires ValidPlayer(p)
    ensures 0 <= PlayerScore(p) <= MaxScore
  {
    DistanceIncentiveBounds(p);
    SafeIncentiveBounds(p);
  }

  /** A well-formed player reaches the top score of 400 exactly when all of its
      pawns are home and none of them has any distance left. */
  lemma PlayerScoreMaximal(p: Player)
    requires ValidPlayer(p)
    ensures PlayerScore(p) == MaxScore <==> AllPawnsInHome(p) && TotalDistance(p.pawns) == 0
  {
    DistanceIncentiveBounds(p);
    SafeIncentiveBounds(p);
    if AllPawnsInHome(p) {
      SafeSumCounts(p.pawns);
      CountAllHome(p.pawns);
    }
  }

  lemma {:induction false} ScoreSumBounds(ps: seq<Player>)
    requires ValidPlayers(ps)
    ensures 0 <= ScoreSum(ps) <= MaxScore * |ps|
  {
    if ps != [] {
      PlayerScoreBounds(ps[0]);
      ScoreSumBounds(ps[1..]);
    }
  }

  // ---------------------------------------------------------------------------
  // The reward
  // ---------------------------------------------------------------------------

  /** For a well-formed view of a game of `players` players the reward lies in Range(players). */
  lemma RewardInRange(v: PlayerView, players: int)
    requires ValidView(v) && |v.opponents| == players - 1
    ensures Range(players).0 <= Calculate(v) <= Range(players).1
  {
    var n := |v.opponents|;
    PlayerScoreBounds(v.player);
    ScoreSumBounds(v.opponents);
    MulMonotone(n, PlayerScore(v.player), MaxScore);
  }

  lemma MulMonotone(n: nat, a: int, b: int)
    requires a <= b
    ensures n * a <= n * b
  {
  }

  /** A player with every pawn home and no distance left. */
  function WinningPlayer(): Player {
    Player(seq(PawnsPerPlayer, _ => Pawn(0, false, true)))
  }

  /** A player with every pawn as far from home as it can be. */
  function FarthestPlayer(): Player {
    Player(seq(PawnsPerPlayer, _ => Pawn(MaxDistance, false, false)))
  }

  lemma {:induction false} ScoreSumFarthest(n: nat)
    ensures ScoreSum(seq(n, _ => FarthestPlayer())) == 0
  {
    var far := FarthestPlayer();
    assert far.pawns == [Pawn(MaxDistance, false, false), Pawn(MaxDistance, false, false),
                         Pawn(MaxDistance, false, false), Pawn(MaxDistance, false, false)];
    assert !AllPawnsInHome(far) by { assert !far.pawns[0].home; }
    assert PlayerScore(far) == 0;
    if n > 0 {
      var ps := seq(n, _ => FarthestPlayer());
      assert ps[0] == far && ps[1..] == seq(n - 1, _ => FarthestPlayer());
      ScoreSumFarthest(n - 1);
    }
  }

  /** The upper end of the range is reached: a player that has won, facing
      opponents who have not moved at all. */
  lemma RewardUpperBoundReached(players: nat)
    requires players >= 1
    ensures var v := PlayerView(WinningPlayer(), seq(players - 1, _ => FarthestPlayer()));
      ValidView(v) && Calculate(v) == Range(players).1
  {
    var v := PlayerView(WinningPlayer(), seq(players - 1, _ => FarthestPlayer()));
    assert v.player.pawns == [Pawn(0, false, true), Pawn(0, false, true), Pawn(0, false, true), Pawn(0, false, true)];
    ScoreSumFarthest(players - 1);
  }

  /** A player whose opponents all stand exactly as well as it does gets no reward. */
  lemma {:induction false} RewardOfEvenPosition(v: PlayerView)
    requires forall i :: 0 <= i < |v.opponents| ==> PlayerScore(v.opponents[i]) == PlayerScore(v.player)
    ensures Calculate(v) == 0
  {
    EvenScoreSum(v.opponents, PlayerScore(v.player));
  }

  lemma {:induction false} EvenScoreSum(ps: seq<Player>, s: int)
    requires forall i :: 0 <= i < |ps| ==> PlayerScore(ps[i]) == s
    ensures ScoreSum(ps) == |ps| * s
  {
    if ps != [] {
      EvenScoreSum(ps[1..], s);
    }
  }

  /** A stronger own position never lowers the reward. */
  lemma RewardMonotoneInPlayer(v: PlayerView, better: Player)
    requires PlayerScore(better) >= PlayerScore(v.player)
    ensures Calculate(v.(player := better)) >= Calculate(v)
  {
  }

  lemma {:induction false} ScoreSumUpdate(ps: seq<Player>, i: nat, q: Player)
    requires i < |ps|
    ensures ScoreSum(ps[i := q]) == ScoreSum(ps) - PlayerScore(ps[i]) + PlayerScore(q)
  {
    if i == 0 {
      assert ps[i := q][1..] == ps[1..];
    } else {
      assert ps[i := q][1..] == ps[1..][i - 1 := q];
      ScoreSumUpdate(ps[1..], i - 1, q);
    }
  }

  /** A stronger position of any one opponent never raises the reward. */
  lemma RewardAntitoneInOpponent(v: PlayerView, i: nat, stronger: Player)
    requires i < |v.opponents| && PlayerScore(stronger) >= PlayerScore(v.opponents[i])
    ensures Calculate(v.(opponents := v.opponents[i := stronger])) <= Calculate(v)
  {
    ScoreSumUpdate(v.opponents, i, stronger);
  }
}
