/** The search: evaluation of a state, depth-bounded minimax, and the choice
    of the best root move. */
module Search {
  import opened Options
  import opened Cards
  import opened Board
  import opened Game

  /** evaluate_game_state as written: the points of `player` minus the points
      of the side opposite the side TO MOVE (not the side opposite `player`).
      It is therefore zero whenever `player` is not the side to move. */
  function Evaluate(s: GameState, player: Side): (r: int)
    ensures player != s.current ==> r == 0
    ensures player == s.current ==> r == s.PointsOf(player) - s.PointsOf(Opposite(player))
  {
    var other := Opposite(s.current);
    s.PointsOf(player) - s.PointsOf(other)
  }

  /** Python's max over a non-empty list of scores. */
  function Largest(xs: seq<int>): (r: int)
    requires |xs| > 0
    ensures r in xs
    ensures forall x :: x in xs ==> x <= r
  {
    if |xs| == 1 then xs[0]
    else
      var m := Largest(xs[1..]);
      assert xs == [xs[0]] + xs[1..];
      if xs[0] >= m then xs[0] else m
  }

  /** Python's min over a non-empty list of scores. */
  function Smallest(xs: seq<int>): (r: int)
    requires |xs| > 0
    ensures r in xs
    ensures forall x :: x in xs ==> r <= x
  {
    if |xs| == 1 then xs[0]
    else
      var m := Smallest(xs[1..]);
      assert xs == [xs[0]] + xs[1..];
      if xs[0] <= m then xs[0] else m
  }

  /** The states reached by each move of next_possible_moves, in that order;
      each is an independent copy, as the deep copy before make_move gives. */
  function Children(s: GameState): (r: seq<GameState>)
    requires ValidState(s)
    ensures |r| == |NextPossibleMoves(s)|
    // The membership conjunct is trivially true; it makes the membership
    // contract of NextPossibleMoves available for the move at index i.
    ensures forall i :: 0 <= i < |r| ==>
      && NextPossibleMoves(s)[i] in NextPossibleMoves(s)
      && r[i] == MakeMove(s, NextPossibleMoves(s)[i].symbol, NextPossibleMoves(s)[i].pos)
    ensures forall i :: 0 <= i < |r| ==>
      && ValidState(r[i])
      && r[i].current == Opposite(s.current)
      && |AvailablePositions(r[i].board)| == |AvailablePositions(s.board)| - 1
  {
    var moves := NextPossibleMoves(s);
    seq(|moves|, i requires 0 <= i < |moves| => MakeMove(s, moves[i].symbol, moves[i].pos))
  }

  /** The exact condition under which minimax(s, _, depth, max_depth, _)
      never takes max or min of an empty list: wherever the search recurses
      (the game is not over and the depth bound is not reached), the side to
      move holds at least one card. */
  ghost predicate Searchable(s: GameState, depth: int, maxDepth: int)
    requires ValidState(s)
    decreases |AvailablePositions(s.board)|
  {
    || GameOver(s)
    || depth == maxDepth
    || (&& s.HandOf(s.current) != []
        && forall i :: 0 <= i < |Children(s)| ==> Searchable(Children(s)[i], depth + 1, maxDepth))
  }

  /** minimax: at a finished game or at the depth bound, the evaluation for
      `player`; otherwise the largest (when `isMax`) or smallest of the
      children's scores, each searched with the flag negated one level
      deeper. The flag depends only on the ply, not on the side to move. */
  function Minimax(s: GameState, isMax: bool, depth: int, maxDepth: int, player: Side): (r: int)
    requires ValidState(s) && Searchable(s, depth, maxDepth)
    ensures GameOver(s) || depth == maxDepth ==> r == Evaluate(s, player)
    decreases |AvailablePositions(s.board)|, 1
  {
    if GameOver(s) || depth == maxDepth then
      Evaluate(s, player)
    else
      var scores := ChildScores(s, isMax, depth, maxDepth, player);
      if isMax then Largest(scores) else Smallest(scores)
  }

  /** The scores of the children of a state where the search recurses. */
  function ChildScores(s: GameState, isMax: bool, depth: int, maxDepth: int, player: Side): (r: seq<int>)
    requires ValidState(s) && Searchable(s, depth, maxDepth)
    requires !GameOver(s) && depth != maxDepth
    ensures |r| == |Children(s)| > 0
    decreases |AvailablePositions(s.board)|, 0
  {
    var cs := Children(s);
    assert |cs| > 0 by {
      var p :| At(s.board, p).None?;
      var h := s.HandOf(s.current);
      assert Holds(h, h[0].symbol);
      assert Move(h[0].symbol, p) in NextPossibleMoves(s);
    }
    seq(|cs|, i requires 0 <= i < |cs| => Minimax(cs[i], !isMax, depth + 1, maxDepth, player))
  }

  /** Entry k of ChildScores is the score of child k. */
  lemma ChildScore(s: GameState, isMax: bool, depth: int, maxDepth: int, player: Side, k: int)
    requires ValidState(s) && Searchable(s, depth, maxDepth)
    requires !GameOver(s) && depth != maxDepth
    requires 0 <= k < |Children(s)|
    ensures ChildScores(s, isMax, depth, maxDepth, player)[k]
         == Minimax(Children(s)[k], !isMax, depth + 1, maxDepth, player)
  {
  }

  /** In the recursive case the score of minimax is the score of one of the
      children... */
  lemma MinimaxAttained(s: GameState, isMax: bool, depth: int, maxDepth: int, player: Side) returns (k: int)
    requires ValidState(s) && Searchable(s, depth, maxDepth)
    requires !GameOver(s) && depth != maxDepth
    ensures 0 <= k < |Children(s)|
    ensures Minimax(s, isMax, depth, maxDepth, player) == Minimax(Children(s)[k], !isMax, depth + 1, maxDepth, player)
  {
    var scores := ChildScores(s, isMax, depth, maxDepth, player);
    k := PickIndex(scores, isMax);
    ChildScore(s, isMax, depth, maxDepth, player, k);
  }

  /** ...and it bounds every child's score: from above when `isMax` holds,
      from below otherwise. */
  lemma MinimaxBounds(s: GameState, isMax: bool, depth: int, maxDepth: int, player: Side, i: int)
    requires ValidState(s) && Searchable(s, depth, maxDepth)
    requires !GameOver(s) && depth != maxDepth
    requires 0 <= i < |Children(s)|
    ensures var r := Minimax(s, isMax, depth, maxDepth, player);
      var c := Minimax(Children(s)[i], !isMax, depth + 1, maxDepth, player);
      if isMax then c <= r else r <= c
  {
    var scores := ChildScores(s, isMax, depth, maxDepth, player);
    ChildScore(s, isMax, depth, maxDepth, player, i);
    PickBound(scores, isMax, i);
  }

  /** Largest and Smallest return an element of the list. */
  lemma PickIndex(xs: seq<int>, isMax: bool) returns (k: int)
    requires |xs| > 0
    ensures 0 <= k < |xs| && xs[k] == if isMax then Largest(xs) else Smallest(xs)
  {
    var r := if isMax then Largest(xs) else Smallest(xs);
    assert r in xs;
    k :| 0 <= k < |xs| && xs[k] == r;
  }

  /** Largest and Smallest bound every element of the list. */
  lemma PickBound(xs: seq<int>, isMax: bool, i: int)
    requires 0 <= i < |xs|
    ensures if isMax then xs[i] <= Largest(xs) else Smallest(xs) <= xs[i]
  {
    assert xs[i] in xs;
  }

  /** A consequence of the evaluation as written. At the depth bound the
      evaluation is 0 unless `player` is the side to move there. If `player`
      is not to move now, the bound is an even number of plies away, and the
      game cannot end before it, then `player` is not to move at any leaf:
      every leaf scores 0, so the whole search scores 0. */
  lemma {:induction false} ZeroAtHorizon(s: GameState, isMax: bool, depth: int, maxDepth: int, player: Side, pairs: nat)
    requires ValidState(s) && Searchable(s, depth, maxDepth)
    requires depth + 2 * pairs == maxDepth
    requires |AvailablePositions(s.board)| >= 2 * pairs
    requires s.current != player
    ensures Minimax(s, isMax, depth, maxDepth, player) == 0
    decreases pairs
  {
    if pairs == 0 {
      LeafScore(s, isMax, depth, maxDepth, player);
    } else {
      var g := TwoPlies(s, isMax, depth, maxDepth, player);
      ZeroAtHorizon(g, isMax, depth + 2, maxDepth, player, pairs - 1);
    }
  }

  /** Two plies of the search below a state at least two plies from the
      bound with at least two empty positions: the grandchild whose score
      minimax passes up, with the same side to move as at the start. */
  lemma TwoPlies(s: GameState, isMax: bool, depth: int, maxDepth: int, player: Side)
    returns (g: GameState)
    requires ValidState(s) && Searchable(s, depth, maxDepth)
    requires depth != maxDepth && depth + 1 != maxDepth
    requires |AvailablePositions(s.board)| >= 2
    ensures ValidState(g) && Searchable(g, depth + 2, maxDepth)
    ensures g.current == s.current
    ensures |AvailablePositions(g.board)| == |AvailablePositions(s.board)| - 2
    ensures Minimax(s, isMax, depth, maxDepth, player) == Minimax(g, isMax, depth + 2, maxDepth, player)
  {
    var c := HorizonStep(s, isMax, depth, maxDepth, player);
    g := HorizonStep(c, !isMax, depth + 1, maxDepth, player);
  }

  /** One ply of the search below a state that is neither finished nor at
      the bound: the child whose score minimax passes up. */
  lemma HorizonStep(s: GameState, isMax: bool, depth: int, maxDepth: int, player: Side)
    returns (c: GameState)
    requires ValidState(s) && Searchable(s, depth, maxDepth)
    requires depth != maxDepth && |AvailablePositions(s.board)| > 0
    ensures ValidState(c) && Searchable(c, depth + 1, maxDepth)
    ensures c.current == Opposite(s.current)
    ensures |AvailablePositions(c.board)| == |AvailablePositions(s.board)| - 1
    ensures Minimax(s, isMax, depth, maxDepth, player) == Minimax(c, !isMax, depth + 1, maxDepth, player)
  {
    assert !GameOver(s) by {
      var ps := AvailablePositions(s.board);
      assert ps[0] in ps;
    }
    c := BestChild(s, isMax, depth, maxDepth, player);
  }

  /** At the depth bound minimax scores the evaluation, which is 0 for a
      side that is not to move. */
  lemma LeafScore(s: GameState, isMax: bool, depth: int, maxDepth: int, player: Side)
    requires ValidState(s) && Searchable(s, depth, maxDepth)
    requires depth == maxDepth
    ensures s.current != player ==> Minimax(s, isMax, depth, maxDepth, player) == 0
  {
  }

  /** A child whose score minimax passes up, with the facts about it that
      inductive proofs over the search need. */
  lemma BestChild(s: GameState, isMax: bool, depth: int, maxDepth: int, player: Side) returns (c: GameState)
    requires ValidState(s) && Searchable(s, depth, maxDepth)
    requires !GameOver(s) && depth != maxDepth
    ensures ValidState(c) && Searchable(c, depth + 1, maxDepth)
    ensures c.current == Opposite(s.current)
    ensures |AvailablePositions(c.board)| == |AvailablePositions(s.board)| - 1
    ensures Minimax(s, isMax, depth, maxDepth, player) == Minimax(c, !isMax, depth + 1, maxDepth, player)
  {
    var k := MinimaxAttained(s, isMax, depth, maxDepth, player);
    c := Children(s)[k];
  }

  /** The hand sizes of a game that can be played to the end: the side to
      move holds at least half the empty positions rounded up, the other side
      at least half rounded down (five and four cards on an empty board). */
  predicate HandsCover(s: GameState)
  {
    var e := |AvailablePositions(s.board)|;
    |s.HandOf(s.current)| >= (e + 1) / 2 && |s.HandOf(Opposite(s.current))| >= e / 2
  }

  /** A move keeps the hands covering the board. */
  lemma MoveKeepsHandsCover(s: GameState, sym: string, pos: Position)
    requires ValidState(s) && HandsCover(s)
    requires Holds(s.HandOf(s.current), sym)
    requires At(s.board, pos).None?
    ensures HandsCover(MakeMove(s, sym, pos))
  {
  }

  /** A state whose hands cover the board can be searched to any depth:
      minimax never meets a side to move with an empty hand. */
  lemma {:induction false} CoveredIsSearchable(s: GameState, depth: int, maxDepth: int)
    requires ValidState(s) && HandsCover(s)
    ensures Searchable(s, depth, maxDepth)
    decreases |AvailablePositions(s.board)|
  {
    if !GameOver(s) && depth != maxDepth {
      var ps := AvailablePositions(s.board);
      var p :| At(s.board, p).None?;
      assert p in ps;
      var cs := Children(s);
      var moves := NextPossibleMoves(s);
      forall i | 0 <= i < |cs|
        ensures Searchable(cs[i], depth + 1, maxDepth)
      {
        MoveKeepsHandsCover(s, moves[i].symbol, moves[i].pos);
        CoveredIsSearchable(cs[i], depth + 1, maxDepth);
      }
    }
  }

  /** The index Python's strict `>` scan settles on: a largest score, and the
      first one among equals. */
  function FirstMax(xs: seq<int>): (i: nat)
    requires |xs| > 0
    ensures i < |xs|
    ensures forall j :: 0 <= j < |xs| ==> xs[j] <= xs[i]
    ensures forall j :: 0 <= j < i ==> xs[j] < xs[i]
  {
    if |xs| == 1 then 0
    else
      var k := FirstMax(xs[..|xs| - 1]);
      if xs[|xs| - 1] > xs[k] then |xs| - 1 else k
  }

  /** One step of the scan: extending the scores by one moves the first
      largest only when the new score is strictly larger. */
  lemma FirstMaxStep(xs: seq<int>, k: nat)
    requires k < |xs|
    ensures k == 0 ==> FirstMax(xs[..k + 1]) == 0
    ensures k > 0 ==> FirstMax(xs[..k + 1]) == (if xs[k] > xs[FirstMax(xs[..k])] then k else FirstMax(xs[..k]))
  {
    assert xs[..k + 1][..k] == xs[..k];
  }

  /** When all scores tie, the scan keeps the first. */
  lemma FirstMaxOfTies(xs: seq<int>)
    requires |xs| > 0
    requires forall i :: 0 <= i < |xs| ==> xs[i] == xs[0]
    ensures FirstMax(xs) == 0
  {
  }

  /** Every root move leads to a state minimax can search from depth 1. */
  ghost predicate RootSearchable(s: GameState, maxDepth: int)
    requires ValidState(s)
  {
    forall i :: 0 <= i < |Children(s)| ==> Searchable(Children(s)[i], 1, maxDepth)
  }

  /** The score best_move gives each root move: minimax from the child state,
      maximising, at depth 1, for the side to move at the root. */
  function RootScores(s: GameState, maxDepth: int): (r: seq<int>)
    requires ValidState(s) && RootSearchable(s, maxDepth)
    ensures |r| == |NextPossibleMoves(s)|
  {
    var cs := Children(s);
    seq(|cs|, i requires 0 <= i < |cs| => Minimax(cs[i], true, 1, maxDepth, s.current))
  }

  /** The score of one root move. */
  lemma RootScore(s: GameState, maxDepth: int, k: int)
    requires ValidState(s) && RootSearchable(s, maxDepth)
    requires 0 <= k < |NextPossibleMoves(s)|
    ensures RootScores(s, maxDepth)[k] == Minimax(Children(s)[k], true, 1, maxDepth, s.current)
  {
  }

  /** The scan at the heart of best_move: walk the moves in order and keep a
      move only when its score is strictly larger than the best so far (the
      first comparison is against minus infinity, so the first move is always
      kept). The result is the first move of largest score, with that score,
      and no move at all when there is none. */
  method Scan(moves: seq<Move>, scores: seq<int>) returns (best: Option<(Move, int)>)
    requires |scores| == |moves|
    ensures best.None? <==> moves == []
    ensures best.Some? ==> best.value == (moves[FirstMax(scores)], scores[FirstMax(scores)])
  {
    best := None;
    var k := 0;
    while k < |moves|
      invariant 0 <= k <= |moves|
      invariant best.None? <==> k == 0
      invariant k > 0 ==> best.value == (moves[FirstMax(scores[..k])], scores[FirstMax(scores[..k])])
    {
      FirstMaxStep(scores, k);
      if best.None? || scores[k] > best.value.1 {
        best := Some((moves[k], scores[k]));
      }
      k := k + 1;
    }
    assert scores[..|moves|] == scores;
  }

  /** best_move: the scan over next_possible_moves, each scored by minimax
      from the state the move leads to. */
  method BestMove(s: GameState, maxDepth: int) returns (best: Option<(Move, int)>)
    requires ValidState(s) && RootSearchable(s, maxDepth)
    ensures best.None? <==> NextPossibleMoves(s) == []
    ensures best.Some? ==>
      var scores := RootScores(s, maxDepth);
      best.value == (NextPossibleMoves(s)[FirstMax(scores)], scores[FirstMax(scores)])
  {
    best := Scan(NextPossibleMoves(s), RootScores(s, maxDepth));
  }

  /** Hands that cover the board make every root move searchable. */
  lemma {:induction false} CoveredRootSearchable(s: GameState, maxDepth: int)
    requires ValidState(s) && HandsCover(s)
    ensures RootSearchable(s, maxDepth)
  {
    var cs := Children(s);
    var moves := NextPossibleMoves(s);
    forall i | 0 <= i < |cs|
      ensures Searchable(cs[i], 1, maxDepth)
    {
      MoveKeepsHandsCover(s, moves[i].symbol, moves[i].pos);
      CoveredIsSearchable(cs[i], 1, maxDepth);
    }
  }

  /** At the default depth of 3 the search ends two plies below each root
      move, where the side to move is again the root's opponent; so while at
      least three positions are empty every root move scores 0 and best_move
      returns the first move in next_possible_moves order. */
  lemma DefaultDepthPicksFirst(s: GameState)
    requires ValidState(s) && RootSearchable(s, 3)
    requires |AvailablePositions(s.board)| >= 3
    requires NextPossibleMoves(s) != []
    ensures forall i :: 0 <= i < |RootScores(s, 3)| ==> RootScores(s, 3)[i] == 0
    ensures FirstMax(RootScores(s, 3)) == 0
    ensures NextPossibleMoves(s)[0] == Move(s.HandOf(s.current)[0].symbol, AvailablePositions(s.board)[0])
    ensures forall p: Position :: At(s.board, p).None? ==> AvailablePositions(s.board)[0] <= p
  {
    FirstPossibleMove(s);
    var cs := Children(s);
    var scores := RootScores(s, 3);
    forall i | 0 <= i < |scores|
      ensures scores[i] == 0
    {
      RootScore(s, 3, i);
      ZeroAtHorizon(cs[i], true, 1, 3, s.current, 1);
    }
    FirstMaxOfTies(scores);
  }
}
