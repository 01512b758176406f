/** The game state and its operations: placing a card with the capture rule,
    enumerating moves, the end of the game and the winner. */
module Game {
  import opened Options
  import opened Cards
  import opened Board

  /** A hand: the cards a side has not played yet, in insertion order. A card
      is looked up by its symbol, which is unique within a hand. */
  type Hand = seq<Card>

  /** Whether some card of `h` has symbol `sym`. */
  predicate Holds(h: Hand, sym: string)
  {
    exists i :: 0 <= i < |h| && h[i].symbol == sym
  }

  predicate DistinctSymbols(h: Hand)
  {
    forall i, j :: 0 <= i < j < |h| ==> h[i].symbol != h[j].symbol
  }

  /** A move: the symbol of the card to play and the position to play it to. */
  datatype Move = Move(symbol: string, pos: Position)

  /** The board, both hands, the side to move and each side's points. Points
      are counters that only moves change; they are not recomputed from the
      owners of the cards. */
  datatype GameState = GameState(
    board: Grid,
    handP: Hand,
    handO: Hand,
    current: Side,
    pointsP: int,
    pointsO: int)
  {
    function HandOf(side: Side): Hand
    {
      if side == P then handP else handO
    }

    function PointsOf(side: Side): int
    {
      if side == P then pointsP else pointsO
    }

    /** This state with the hand of `side` replaced by `h`. */
    function WithHand(side: Side, h: Hand): (r: GameState)
      ensures r.HandOf(side) == h
      ensures r.HandOf(Opposite(side)) == HandOf(Opposite(side))
      ensures r.board == board && r.current == current
      ensures r.pointsP == pointsP && r.pointsO == pointsO
    {
      if side == P then this.(handP := h) else this.(handO := h)
    }

    /** This state with `n` points added to `side`. */
    function AddPoints(side: Side, n: int): (r: GameState)
      ensures r.PointsOf(side) == PointsOf(side) + n
      ensures r.PointsOf(Opposite(side)) == PointsOf(Opposite(side))
      ensures r.board == board && r.current == current
      ensures r.handP == handP && r.handO == handO
    {
      if side == P then this.(pointsP := pointsP + n) else this.(pointsO := pointsO + n)
    }
  }

  /** A state the engine can work on: each hand is a dictionary, so its
      symbols are distinct. */
  predicate ValidState(s: GameState)
  {
    DistinctSymbols(s.handP) && DistinctSymbols(s.handO)
  }

  /** Index of the first card of `h` at or after `k` with symbol `sym`. */
  function FindFrom(h: Hand, sym: string, k: nat): (i: nat)
    requires k <= |h|
    requires exists j :: k <= j < |h| && h[j].symbol == sym
    ensures k <= i < |h| && h[i].symbol == sym
    ensures forall j :: k <= j < i ==> h[j].symbol != sym
    decreases |h| - k
  {
    if h[k].symbol == sym then k else FindFrom(h, sym, k + 1)
  }

  /** Index of the card with symbol `sym`: the dictionary lookup hand[sym]. */
  function IndexOf(h: Hand, sym: string): (i: nat)
    requires Holds(h, sym)
    ensures i < |h| && h[i].symbol == sym
    ensures DistinctSymbols(h) ==> forall j :: 0 <= j < |h| && h[j].symbol == sym ==> j == i
  {
    FindFrom(h, sym, 0)
  }

  /** Removing the card at `i` keeps the other symbols distinct and drops the
      symbol of the removed card. */
  lemma RemoveAt(h: Hand, i: nat)
    requires DistinctSymbols(h) && i < |h|
    ensures DistinctSymbols(h[..i] + h[i + 1..])
    ensures !Holds(h[..i] + h[i + 1..], h[i].symbol)
  {
    var rest := h[..i] + h[i + 1..];
    forall a, b | 0 <= a < b < |rest|
      ensures rest[a].symbol != rest[b].symbol
    {
      var a' := if a < i then a else a + 1;
      var b' := if b < i then b else b + 1;
      assert rest[a] == h[a'] && rest[b] == h[b'];
    }
    forall a | 0 <= a < |rest|
      ensures rest[a].symbol != h[i].symbol
    {
      var a' := if a < i then a else a + 1;
      assert rest[a] == h[a'];
    }
  }

  /** The capture rule for one direction: the neighbour in direction `d` of
      `pos` flips to `mover` when it exists, is owned by the other side, and
      the placed card's edge is strictly stronger than the neighbour's facing
      edge (top against bottom, left against right, and so on). */
  predicate Captures(b: Grid, card: Card, pos: Position, d: Direction, mover: Side)
  {
    match Neighbour(pos, d)
    case None => false
    case Some(q) =>
      && At(b, q).Some?
      && At(b, q).value.owner == Opposite(mover)
      && card.Value(d) > At(b, q).value.Value(Facing(d))
  }

  /** Number of neighbours `card` captures when placed at `pos` by `mover`. */
  function CaptureCount(b: Grid, card: Card, pos: Position, mover: Side): (n: nat)
    ensures n <= Degree(pos) <= 4
  {
    (if Captures(b, card, pos, Above, mover) then 1 else 0)
    + (if Captures(b, card, pos, LeftOf, mover) then 1 else 0)
    + (if Captures(b, card, pos, RightOf, mover) then 1 else 0)
    + (if Captures(b, card, pos, Below, mover) then 1 else 0)
  }

  /** One of the four capture checks of make_move: flip the neighbour in
      direction `d` if the rule allows it, moving one point from the other
      side to `mover`. Nothing but that one slot and the two counters
      changes. */
  function CaptureStep(t: GameState, card: Card, pos: Position, d: Direction, mover: Side): (r: GameState)
    ensures r.current == t.current && r.handP == t.handP && r.handO == t.handO
    ensures forall q: Position :: Neighbour(pos, d) != Some(q) ==> At(r.board, q) == At(t.board, q)
    ensures Captures(t.board, card, pos, d, mover) ==>
      var q := Neighbour(pos, d).value;
      At(r.board, q) == Some(At(t.board, q).value.(owner := mover))
    ensures !Captures(t.board, card, pos, d, mover) ==> r.board == t.board
    ensures forall q: Position :: At(r.board, q).None? <==> At(t.board, q).None?
    ensures var k := if Captures(t.board, card, pos, d, mover) then 1 else 0;
      && r.PointsOf(mover) == t.PointsOf(mover) + k
      && r.PointsOf(Opposite(mover)) == t.PointsOf(Opposite(mover)) - k
  {
    if Captures(t.board, card, pos, d, mover) then
      var q := Neighbour(pos, d).value;
      var flipped := At(t.board, q).value.(owner := mover);
      t.(board := t.board[q - 1 := Some(flipped)]).AddPoints(mover, 1).AddPoints(Opposite(mover), -1)
    else
      t
  }

  /** The card with symbol `sym` in the hand of the side to move. */
  function CardToPlay(s: GameState, sym: string): (c: Card)
    requires Holds(s.HandOf(s.current), sym)
    ensures c in s.HandOf(s.current) && c.symbol == sym
  {
    var h := s.HandOf(s.current);
    h[IndexOf(h, sym)]
  }

  /** The first half of make_move: take the card with symbol `sym` out of
      the mover's hand, put it at `pos`, and give the mover one point. */
  function PlaceCard(s: GameState, sym: string, pos: Position): (r: GameState)
    requires ValidState(s)
    requires Holds(s.HandOf(s.current), sym)
    requires At(s.board, pos).None?
    ensures ValidState(r) && r.current == s.current
    ensures |r.HandOf(s.current)| == |s.HandOf(s.current)| - 1
    ensures !Holds(r.HandOf(s.current), sym)
    ensures var i := IndexOf(s.HandOf(s.current), sym);
      s.HandOf(s.current) == r.HandOf(s.current)[..i] + [CardToPlay(s, sym)] + r.HandOf(s.current)[i..]
    ensures r.HandOf(Opposite(s.current)) == s.HandOf(Opposite(s.current))
    ensures At(r.board, pos) == Some(CardToPlay(s, sym))
    ensures forall q: Position :: q != pos ==> At(r.board, q) == At(s.board, q)
    ensures r.PointsOf(s.current) == s.PointsOf(s.current) + 1
    ensures r.PointsOf(Opposite(s.current)) == s.PointsOf(Opposite(s.current))
  {
    var h := s.HandOf(s.current);
    var i := IndexOf(h, sym);
    var rest := h[..i] + h[i + 1..];
    RemoveAt(h, i);
    assert h == rest[..i] + [h[i]] + rest[i..] by {
      assert rest[..i] == h[..i];
      assert rest[i..] == h[i + 1..];
    }
    s.WithHand(s.current, rest).(board := s.board[pos - 1 := Some(h[i])]).AddPoints(s.current, 1)
  }

  /** The second half of make_move: the four capture checks, in the order
      above, left of, right of, below. The result is the same as judging
      every direction against the board before any flip. */
  function ResolveCaptures(t: GameState, card: Card, pos: Position, mover: Side): (r: GameState)
    ensures r.current == t.current && r.handP == t.handP && r.handO == t.handO
    ensures forall d :: Captures(t.board, card, pos, d, mover) ==>
      var q := Neighbour(pos, d).value;
      At(r.board, q) == Some(At(t.board, q).value.(owner := mover))
    ensures forall d :: Neighbour(pos, d).Some? && !Captures(t.board, card, pos, d, mover) ==>
      At(r.board, Neighbour(pos, d).value) == At(t.board, Neighbour(pos, d).value)
    ensures forall q: Position :: !Adjacent(pos, q) ==> At(r.board, q) == At(t.board, q)
    ensures forall q: Position :: At(r.board, q).None? <==> At(t.board, q).None?
    ensures r.PointsOf(mover) == t.PointsOf(mover) + CaptureCount(t.board, card, pos, mover)
    ensures r.PointsOf(Opposite(mover)) == t.PointsOf(Opposite(mover)) - CaptureCount(t.board, card, pos, mover)
  {
    var t1 := CaptureStep(t, card, pos, Above, mover);
    var t2 := CaptureStep(t1, card, pos, LeftOf, mover);
    var t3 := CaptureStep(t2, card, pos, RightOf, mover);
    var t4 := CaptureStep(t3, card, pos, Below, mover);
    assert StepOf(t.board, t1.board, card, pos, Above, mover);
    assert StepOf(t1.board, t2.board, card, pos, LeftOf, mover);
    assert StepOf(t2.board, t3.board, card, pos, RightOf, mover);
    assert StepOf(t3.board, t4.board, card, pos, Below, mover);
    CaptureStepsCommute(t.board, t1.board, t2.board, t3.board, t4.board, card, pos, mover);
    t4
  }

  /** make_move: place the card, run the capture checks, pass the turn. */
  function MakeMove(s: GameState, sym: string, pos: Position): (r: GameState)
    requires ValidState(s)
    requires Holds(s.HandOf(s.current), sym)
    requires At(s.board, pos).None?
    ensures ValidState(r)
    // the turn passes to the other side
    ensures r.current == Opposite(s.current)
    // the card leaves the mover's hand, the rest of that hand keeps its
    // order, and the other hand is untouched
    ensures |r.HandOf(s.current)| == |s.HandOf(s.current)| - 1
    ensures !Holds(r.HandOf(s.current), sym)
    ensures var i := IndexOf(s.HandOf(s.current), sym);
      s.HandOf(s.current) == r.HandOf(s.current)[..i] + [CardToPlay(s, sym)] + r.HandOf(s.current)[i..]
    ensures r.HandOf(Opposite(s.current)) == s.HandOf(Opposite(s.current))
    // the card, with its owner field unchanged, now occupies `pos`
    ensures At(r.board, pos) == Some(CardToPlay(s, sym))
    // the mover gains 1 + k points and the other side loses k
    ensures r.PointsOf(s.current) == s.PointsOf(s.current) + 1 + CaptureCount(s.board, CardToPlay(s, sym), pos, s.current)
    ensures r.PointsOf(Opposite(s.current)) == s.PointsOf(Opposite(s.current)) - CaptureCount(s.board, CardToPlay(s, sym), pos, s.current)
    ensures r.pointsP + r.pointsO == s.pointsP + s.pointsO + 1
    // exactly one empty slot is filled
    ensures |AvailablePositions(r.board)| == |AvailablePositions(s.board)| - 1
  {
    var card := CardToPlay(s, sym);
    var placed := PlaceCard(s, sym, pos);
    PlacingKeepsCaptures(s.board, placed.board, card, pos, s.current);
    var resolved := ResolveCaptures(placed, card, pos, s.current);
    assert FilledOneSlot(s.board, resolved.board, pos);
    FillOneSlot(s.board, resolved.board, pos);
    resolved.(current := Opposite(s.current))
  }

  /** The capture rule of make_move, judged against the board before the
      move: a neighbour flips to the mover exactly when `Captures` holds for
      its direction (so ties and the mover's own cards never flip), a
      neighbour that does not flip is unchanged, and every slot that is
      neither `pos` nor adjacent to it is unchanged. */
  lemma MakeMoveCaptures(s: GameState, sym: string, pos: Position)
    requires ValidState(s)
    requires Holds(s.HandOf(s.current), sym)
    requires At(s.board, pos).None?
    ensures var r := MakeMove(s, sym, pos);
      forall d :: Captures(s.board, CardToPlay(s, sym), pos, d, s.current) ==>
        var q := Neighbour(pos, d).value;
        At(r.board, q) == Some(At(s.board, q).value.(owner := s.current))
    ensures var r := MakeMove(s, sym, pos);
      forall d :: Neighbour(pos, d).Some? && !Captures(s.board, CardToPlay(s, sym), pos, d, s.current) ==>
        At(r.board, Neighbour(pos, d).value) == At(s.board, Neighbour(pos, d).value)
    ensures var r := MakeMove(s, sym, pos);
      forall q: Position :: q != pos && !Adjacent(pos, q) ==> At(r.board, q) == At(s.board, q)
  {
    var card := CardToPlay(s, sym);
    var placed := PlaceCard(s, sym, pos);
    PlacingKeepsCaptures(s.board, placed.board, card, pos, s.current);
    NeighboursDistinctAll(pos);
  }

  /** Putting the card at `pos` does not change any capture decision, since
      no position is its own neighbour. */
  lemma PlacingKeepsCaptures(b: Grid, b': Grid, card: Card, pos: Position, mover: Side)
    requires forall q: Position :: q != pos ==> At(b', q) == At(b, q)
    ensures forall d :: Captures(b', card, pos, d, mover) == Captures(b, card, pos, d, mover)
    ensures CaptureCount(b', card, pos, mover) == CaptureCount(b, card, pos, mover)
    ensures forall q: Position :: !Adjacent(pos, q) && q != pos ==> At(b', q) == At(b, q)
  {
    NeighboursDistinctAll(pos);
  }

  /** The four sequential capture checks of make_move give the same result as
      judging every direction against the board before any flip: each check
      reads and writes only its own neighbour, and the four neighbours are
      distinct. */
  lemma CaptureStepsCommute(b0: Grid, b1: Grid, b2: Grid, b3: Grid, b4: Grid,
                            card: Card, pos: Position, mover: Side)
    requires StepOf(b0, b1, card, pos, Above, mover)
    requires StepOf(b1, b2, card, pos, LeftOf, mover)
    requires StepOf(b2, b3, card, pos, RightOf, mover)
    requires StepOf(b3, b4, card, pos, Below, mover)
    ensures forall q: Position :: !Adjacent(pos, q) ==> At(b4, q) == At(b0, q)
    ensures forall d :: Captures(b0, card, pos, d, mover) ==>
      var q := Neighbour(pos, d).value;
      At(b4, q) == Some(At(b0, q).value.(owner := mover))
    ensures forall d :: Neighbour(pos, d).Some? && !Captures(b0, card, pos, d, mover) ==>
      At(b4, Neighbour(pos, d).value) == At(b0, Neighbour(pos, d).value)
    ensures Captures(b1, card, pos, LeftOf, mover) == Captures(b0, card, pos, LeftOf, mover)
    ensures Captures(b2, card, pos, RightOf, mover) == Captures(b0, card, pos, RightOf, mover)
    ensures Captures(b3, card, pos, Below, mover) == Captures(b0, card, pos, Below, mover)
  {
    NeighboursDistinctAll(pos);
  }

  /** `b'` is `b` after the capture check in direction `d`. */
  predicate StepOf(b: Grid, b': Grid, card: Card, pos: Position, d: Direction, mover: Side)
  {
    && (forall q: Position :: Neighbour(pos, d) != Some(q) ==> At(b', q) == At(b, q))
    && (Captures(b, card, pos, d, mover) ==>
          At(b', Neighbour(pos, d).value) == Some(At(b, Neighbour(pos, d).value).value.(owner := mover)))
    && (!Captures(b, card, pos, d, mover) ==> b' == b)
  }

  lemma NeighboursDistinctAll(p: Position)
    ensures forall d :: Neighbour(p, d).Some? ==> Neighbour(p, d) != Some(p)
    ensures forall d, e :: d != e && Neighbour(p, d).Some? ==> Neighbour(p, d) != Neighbour(p, e)
  {
    forall d, e | Neighbour(p, d).Some?
      ensures Neighbour(p, d) != Some(p)
      ensures d != e ==> Neighbour(p, d) != Neighbour(p, e)
    {
      NeighboursDistinct(p, d, e);
    }
  }

  /** A neighbour flips to the mover exactly when it is there, belongs to the
      other side and loses the strength comparison; in particular a tie and
      a card the mover already owns never flip. */
  lemma FlipIffCaptures(s: GameState, sym: string, pos: Position, d: Direction)
    requires ValidState(s)
    requires Holds(s.HandOf(s.current), sym)
    requires At(s.board, pos).None?
    requires Neighbour(pos, d).Some?
    ensures var q := Neighbour(pos, d).value;
      var before := At(s.board, q);
      var after := At(MakeMove(s, sym, pos).board, q);
      (before.Some? && before.value.owner != s.current && after.Some? && after.value.owner == s.current)
      <==> (before.Some? && before.value.owner == Opposite(s.current)
            && CardToPlay(s, sym).Value(d) > before.value.Value(Facing(d)))
  {
    MakeMoveCaptures(s, sym, pos);
  }

  /** The inner loop of next_possible_moves: the hand's cards, in order, each
      paired with position `p`. */
  function MovesAt(p: Position, h: Hand): (r: seq<Move>)
    ensures |r| == |h|
    ensures forall j :: 0 <= j < |h| ==> r[j] == Move(h[j].symbol, p)
    ensures forall m :: m in r <==> Holds(h, m.symbol) && m.pos == p
  {
    var r := seq(|h|, j requires 0 <= j < |h| => Move(h[j].symbol, p));
    assert forall m: Move :: Holds(h, m.symbol) && m.pos == p ==> m in r by {
      forall m: Move | Holds(h, m.symbol) && m.pos == p ensures m in r {
        var j :| 0 <= j < |h| && h[j].symbol == m.symbol;
        assert r[j] == m;
      }
    }
    r
  }

  /** next_possible_moves for a list of positions and a hand: positions in the
      outer loop, the hand's cards in the inner loop. */
  function MovesFor(positions: seq<Position>, h: Hand): (r: seq<Move>)
    ensures |r| == |positions| * |h|
    decreases |positions|
  {
    if positions == [] then []
    else
      var rest := MovesFor(positions[1..], h);
      ShiftRow(|positions|, |h|, 0);
      MovesAt(positions[0], h) + rest
  }

  /** A move is in the table exactly when its card is in the hand and its
      position is in the list. */
  lemma {:induction false} MovesForMembers(positions: seq<Position>, h: Hand)
    ensures forall m :: m in MovesFor(positions, h) <==> Holds(h, m.symbol) && m.pos in positions
    decreases |positions|
  {
    if positions != [] {
      MovesForMembers(positions[1..], h);
      assert MovesFor(positions, h) == MovesAt(positions[0], h) + MovesFor(positions[1..], h);
      assert forall p :: p in positions <==> p == positions[0] || p in positions[1..];
    }
  }

  /** The move at row i, column j of the table MovesFor(positions, h) pairs the
      i-th position with the j-th card. */
  lemma {:induction false} MovesForOrder(positions: seq<Position>, h: Hand, i: nat, j: nat)
    requires i < |positions| && j < |h|
    ensures i * |h| + j < |MovesFor(positions, h)|
    ensures MovesFor(positions, h)[i * |h| + j] == Move(h[j].symbol, positions[i])
    decreases i
  {
    var row := MovesAt(positions[0], h);
    var rest := MovesFor(positions[1..], h);
    assert MovesFor(positions, h) == row + rest;
    if i > 0 {
      var k := (i - 1) * |h| + j;
      MovesForOrder(positions[1..], h, i - 1, j);
      assert i * |h| + j == |row| + k by {
        ShiftRow(i, |h|, j);
      }
      ConcatIndex(row, rest, k);
    } else {
      assert i * |h| + j == j;
    }
  }

  lemma ConcatIndex<T>(a: seq<T>, b: seq<T>, k: nat)
    requires k < |b|
    ensures |a| + k < |a + b| && (a + b)[|a| + k] == b[k]
  {
  }

  /** Row i of a table with rows of length n starts n cells after row i - 1. */
  lemma ShiftRow(i: int, n: int, j: int)
    ensures i * n + j == n + ((i - 1) * n + j)
  {
  }

  /** next_possible_moves: every pair of a card symbol in the hand of the
      side to move and an empty position, positions ascending in the outer
      loop and the hand in its insertion order in the inner loop. */
  function NextPossibleMoves(s: GameState): (r: seq<Move>)
    ensures forall m :: m in r <==> Holds(s.HandOf(s.current), m.symbol) && At(s.board, m.pos).None?
  {
    MovesForMembers(AvailablePositions(s.board), s.HandOf(s.current));
    MovesFor(AvailablePositions(s.board), s.HandOf(s.current))
  }

  /** There is one move per pair of an empty position and a card in the hand
      of the side to move. */
  lemma NextPossibleMovesCount(s: GameState)
    ensures |NextPossibleMoves(s)| == |AvailablePositions(s.board)| * |s.HandOf(s.current)|
  {
  }

  /** The first possible move plays the first card of the hand on the
      lowest-numbered empty position. */
  lemma FirstPossibleMove(s: GameState)
    requires NextPossibleMoves(s) != []
    ensures |s.HandOf(s.current)| > 0 && |AvailablePositions(s.board)| > 0
    ensures NextPossibleMoves(s)[0] == Move(s.HandOf(s.current)[0].symbol, AvailablePositions(s.board)[0])
    ensures forall p: Position :: At(s.board, p).None? ==> AvailablePositions(s.board)[0] <= p
  {
    var ps := AvailablePositions(s.board);
    var h := s.HandOf(s.current);
    NextPossibleMovesCount(s);
    assert |ps| > 0 && |h| > 0;
    MovesForOrder(ps, h, 0, 0);
    forall p: Position | At(s.board, p).None?
      ensures ps[0] <= p
    {
      assert p in ps;
    }
  }

  /** game_over: no position is empty. */
  function GameOver(s: GameState): (r: bool)
    ensures r <==> forall p: Position :: At(s.board, p).Some?
    ensures r <==> AvailablePositions(s.board) == []
  {
    var ps := AvailablePositions(s.board);
    assert |ps| > 0 ==> ps[0] in ps;
    |ps| == 0
  }

  /** get_winner: the player only with strictly more points; on a tie the
      opponent is returned. */
  function Winner(s: GameState): (r: Side)
    ensures r == P <==> s.pointsP > s.pointsO
    ensures s.PointsOf(r) >= s.PointsOf(Opposite(r))
    ensures s.pointsP == s.pointsO ==> r == O
  {
    if s.pointsP > s.pointsO then P else O
  }
}
