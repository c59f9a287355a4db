/** A character input source that chooses its move by reward: every legal move
    is evaluated, paired with the reward of the view it leads to, the pairs are
    sorted by reward, highest first, and the move at the top is played.

    Moves are opaque to this module (type parameter `M`); the function that
    evaluates a move, giving the view the player would see after it, is passed
    in by the game and is not looked into here. */
module Source {
  import opened Reward

  /** Evaluates a move: the view the player would have after playing it. */
  type Evaluator<!M> = (PlayerView, M) -> PlayerView

  /** A move paired with its reward. */
  type Evaluated<M> = (M, int)

  /** The reward the V1 input source gives to a move. */
  function MoveReward<M>(view: PlayerView, move: M, evaluator: Evaluator<M>): int {
    Calculate(evaluator(view, move))
  }

  /** The V1 input source's calculation: the move itself, unchanged, paired
      with the reward of the view the move leads to, which is never negative. */
  function Evaluate<M>(view: PlayerView, move: M, evaluator: Evaluator<M>): (e: Evaluated<M>)
    ensures e.0 == move
    ensures e.1 == MoveReward(view, move, evaluator) && e.1 >= 0
  {
    (move, Calculate(evaluator(view, move)))
  }

  /** One pair per move, in the order of the moves. */
  function EvaluateAll<M>(view: PlayerView, moves: seq<M>, evaluator: Evaluator<M>): (r: seq<Evaluated<M>>)
    ensures |r| == |moves|
    ensures forall i :: 0 <= i < |r| ==> r[i] == Evaluate(view, moves[i], evaluator)
  {
    if moves == [] then []
    else [Evaluate(view, moves[0], evaluator)] + EvaluateAll(view, moves[1..], evaluator)
  }

  // ---------------------------------------------------------------------------
  // Stable sort by reward, highest first
  // ---------------------------------------------------------------------------

  predicate SortedDesc<M>(s: seq<Evaluated<M>>) {
    forall i, j :: 0 <= i < j < |s| ==> s[i].1 >= s[j].1
  }

  /** Puts `e` into a sequence sorted highest first, after every pair whose
      reward is at least as high, so that earlier pairs stay ahead of later ties. */
  function InsertDesc<M>(e: Evaluated<M>, s: seq<Evaluated<M>>): seq<Evaluated<M>> {
    if s == [] then [e]
    else if s[0].1 >= e.1 then [s[0]] + InsertDesc(e, s[1..])
    else [e] + s
  }

  /** Stable sort by reward, highest first: the pairs are taken in order and
      each is inserted behind the ones already placed with a reward at least as high. */
  function SortDesc<M>(s: seq<Evaluated<M>>): seq<Evaluated<M>> {
    if s == [] then [] else InsertDesc(s[|s| - 1], SortDesc(s[..|s| - 1]))
  }

  /** The index of the first pair with the highest reward. */
  function FirstBest<M>(s: seq<Evaluated<M>>): (k: nat)
    requires s != []
    ensures k < |s|
  {
    if |s| == 1 then 0
    else
      var k := FirstBest(s[..|s| - 1]);
      if s[|s| - 1].1 > s[k].1 then |s| - 1 else k
  }

  /** FirstBest is the first maximum: no pair has a higher reward, and every
      earlier pair has a strictly lower one. */
  lemma {:induction false} FirstBestIsFirstMaximum<M>(s: seq<Evaluated<M>>)
    requires s != []
    ensures forall j :: 0 <= j < |s| ==> s[j].1 <= s[FirstBest(s)].1
    ensures forall j :: 0 <= j < FirstBest(s) ==> s[j].1 < s[FirstBest(s)].1
  {
    if |s| > 1 {
      FirstBestIsFirstMaximum(s[..|s| - 1]);
    }
  }

  lemma {:induction false} InsertDescSorted<M>(e: Evaluated<M>, s: seq<Evaluated<M>>)
    requires SortedDesc(s)
    ensures |InsertDesc(e, s)| == |s| + 1
    ensures InsertDesc(e, s)[0] == if s != [] && s[0].1 >= e.1 then s[0] else e
    ensures SortedDesc(InsertDesc(e, s))
  {
    if s != [] && s[0].1 >= e.1 {
      var t := InsertDesc(e, s[1..]);
      InsertDescSorted(e, s[1..]);
      assert forall k :: 0 <= k < |t| ==> t[k].1 <= t[0].1 <= s[0].1;
    }
  }

  lemma {:induction false} InsertDescPermutation<M>(e: Evaluated<M>, s: seq<Evaluated<M>>)
    ensures multiset(InsertDesc(e, s)) == multiset(s) + multiset{e}
  {
    if s != [] && s[0].1 >= e.1 {
      InsertDescPermutation(e, s[1..]);
      assert s == [s[0]] + s[1..];
    }
  }

  /** The sort puts the pairs in order, highest reward first. */
  lemma {:induction false} SortDescSorted<M>(s: seq<Evaluated<M>>)
    ensures |SortDesc(s)| == |s|
    ensures SortedDesc(SortDesc(s))
  {
    if s != [] {
      SortDescSorted(s[..|s| - 1]);
      InsertDescSorted(s[|s| - 1], SortDesc(s[..|s| - 1]));
    }
  }

  /** The sort neither loses nor duplicates any pair. */
  lemma {:induction false} SortDescPermutation<M>(s: seq<Evaluated<M>>)
    ensures multiset(SortDesc(s)) == multiset(s)
  {
    if s != [] {
      SortDescPermutation(s[..|s| - 1]);
      InsertDescPermutation(s[|s| - 1], SortDesc(s[..|s| - 1]));
      assert s == s[..|s| - 1] + [s[|s| - 1]];
    }
  }

  /** The sort is stable at the top: the head of the sorted pairs is the first
      pair with the highest reward. */
  lemma {:induction false} SortDescHead<M>(s: seq<Evaluated<M>>)
    requires s != []
    ensures |SortDesc(s)| == |s|
    ensures SortDesc(s)[0] == s[FirstBest(s)]
  {
    var init, e := s[..|s| - 1], s[|s| - 1];
    SortDescSorted(init);
    InsertDescSorted(e, SortDesc(init));
    if |s| > 1 {
      SortDescHead(init);
    }
  }

  /** If `e` belongs after position `j` of the sorted `s`, inserting it there is what InsertDesc does. */
  lemma {:induction false} InsertDescAt<M>(e: Evaluated<M>, s: seq<Evaluated<M>>, j: nat)
    requires j <= |s|
    requires forall k :: 0 <= k < j ==> s[k].1 >= e.1
    requires forall k :: j <= k < |s| ==> s[k].1 < e.1
    ensures InsertDesc(e, s) == s[..j] + [e] + s[j..]
  {
    if j > 0 {
      InsertDescAt(e, s[1..], j - 1);
      assert s[..j] == [s[0]] + s[1..][..j - 1];
      assert s[j..] == s[1..][j - 1..];
    } else if s != [] {
      assert s[..0] == [] && s[0..] == s;
    }
  }

  /** What the shifting loop leaves behind is InsertDesc's result: the sorted
      prefix up to `j`, then `e`, then the rest shifted one place to the right. */
  lemma InsertedAt<M>(e: Evaluated<M>, sorted: seq<Evaluated<M>>, j: nat, t: seq<Evaluated<M>>)
    requires SortedDesc(sorted) && j <= |sorted| && |t| == |sorted| + 1
    requires j == 0 || sorted[j - 1].1 >= e.1
    requires forall k :: j <= k < |sorted| ==> sorted[k].1 < e.1
    requires forall k :: 0 <= k < j ==> t[k] == sorted[k]
    requires t[j] == e
    requires forall k :: j < k < |t| ==> t[k] == sorted[k - 1]
    ensures t == InsertDesc(e, sorted)
  {
    assert forall k :: 0 <= k < j ==> sorted[k].1 >= e.1 by {
      if j > 0 {
        assert forall k :: 0 <= k < j - 1 ==> sorted[k].1 >= sorted[j - 1].1;
      }
    }
    InsertDescAt(e, sorted, j);
    assert t == sorted[..j] + [e] + sorted[j..];
  }

  /** Moves the pair at index `i` back past every pair before it with a
      strictly lower reward, so that the first `i + 1` pairs are sorted. */
  method InsertAt<M>(a: array<Evaluated<M>>, i: nat)
    requires i < a.Length && SortedDesc(a[..i])
    modifies a
    ensures a[..i + 1] == InsertDesc(old(a[i]), old(a[..i]))
    ensures a[i + 1..] == old(a[i + 1..])
  {
    ghost var sorted := a[..i];
    var e := a[i];
    var j := i;
    while j > 0 && a[j - 1].1 < e.1
      invariant 0 <= j <= i
      invariant forall k :: 0 <= k < j ==> a[k] == sorted[k]
      invariant forall k :: j < k <= i ==> a[k] == sorted[k - 1]
      invariant forall k :: j <= k < i ==> sorted[k].1 < e.1
      invariant forall k :: i < k < a.Length ==> a[k] == old(a[k])
    {
      a[j] := a[j - 1];
      j := j - 1;
    }
    a[j] := e;
    InsertedAt(e, sorted, j, a[..i + 1]);
    assert a[i + 1..] == old(a[i + 1..]);
  }

  /** Sorts the pairs in place, highest reward first, keeping ties in their
      original order (insertion sort, moving a pair only past strictly lower ones). */
  method SortByReward<M>(a: array<Evaluated<M>>)
    modifies a
    ensures a[..] == SortDesc(old(a[..]))
  {
    ghost var input := a[..];
    var i := 0;
    while i < a.Length
      invariant 0 <= i <= a.Length
      invariant a[..i] == SortDesc(input[..i])
      invariant a[i..] == input[i..]
    {
      SortDescSorted(input[..i]);
      InsertAt(a, i);
      assert input[..i + 1][..i] == input[..i];
      i := i + 1;
    }
    assert input[..a.Length] == input;
  }

  // ---------------------------------------------------------------------------
  // Choosing the move
  // ---------------------------------------------------------------------------

  /** The reward source's choice: evaluate every legal move, sort the pairs by
      reward, highest first, and return the move at the top. It is the first
      legal move with the highest reward. */
  method ChooseMove<M(==)>(view: PlayerView, legalMoves: seq<M>, evaluator: Evaluator<M>) returns (move: M)
    requires legalMoves != []
    ensures move == legalMoves[FirstBest(EvaluateAll(view, legalMoves, evaluator))]
    ensures move in legalMoves
    ensures forall i :: 0 <= i < |legalMoves| ==>
      MoveReward(view, legalMoves[i], evaluator) <= MoveReward(view, move, evaluator)
  {
    var n := |legalMoves|;
    var evaluated := new Evaluated<M>[n](i requires 0 <= i < n => Evaluate(view, legalMoves[i], evaluator));
    ghost var scored := EvaluateAll(view, legalMoves, evaluator);
    assert evaluated[..] == scored;
    SortByReward(evaluated);
    SortDescHead(scored);
    FirstBestIsFirstMaximum(scored);
    move := evaluated[0].0;
  }
}
