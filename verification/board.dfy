/** The 3x3 board. Positions are numbered like a numeric keypad:

      7 8 9
      4 5 6
      1 2 3

    Slot p of a board is held at index p - 1 and read only through `At`. */
module Board {
  import opened Options
  import opened Cards

  type Position = p: int | 1 <= p <= 9 witness 1

  /** Nine slots, each empty or holding one card. */
  type Grid = b: seq<Option<Card>> | |b| == 9
    witness [None, None, None, None, None, None, None, None, None]

  function At(b: Grid, p: Position): Option<Card>
  {
    b[p - 1]
  }

  /** Row of a position counted from the bottom (1 2 3 is row 0) and column
      counted from the left (7 4 1 is column 0). */
  function Row(p: Position): int { (p - 1) / 3 }
  function Col(p: Position): int { (p - 1) % 3 }

  /** Reference definition of adjacency from grid geometry: one row up is
      three more, one column right is one more. */
  function GridNeighbour(p: Position, d: Direction): Option<Position>
  {
    match d
    case Above => if Row(p) < 2 then Some(p + 3) else None
    case Below => if Row(p) > 0 then Some(p - 3) else None
    case LeftOf => if Col(p) > 0 then Some(p - 1) else None
    case RightOf => if Col(p) < 2 then Some(p + 1) else None
  }

  /** The fixed adjacency table of get_neighbours: the position in direction
      `d` of `p`, if any. It agrees with grid geometry everywhere. */
  function Neighbour(p: Position, d: Direction): (r: Option<Position>)
    ensures r == GridNeighbour(p, d)
  {
    if p == 7 then
      (if d == Below then Some(4) else if d == RightOf then Some(8) else None)
    else if p == 8 then
      (if d == LeftOf then Some(7) else if d == Below then Some(5)
       else if d == RightOf then Some(9) else None)
    else if p == 9 then
      (if d == LeftOf then Some(8) else if d == Below then Some(6) else None)
    else if p == 4 then
      (if d == RightOf then Some(5) else if d == Above then Some(7)
       else if d == Below then Some(1) else None)
    else if p == 5 then
      (if d == RightOf then Some(6) else if d == LeftOf then Some(4)
       else if d == Above then Some(8) else Some(2))
    else if p == 6 then
      (if d == LeftOf then Some(5) else if d == Above then Some(9)
       else if d == Below then Some(3) else None)
    else if p == 1 then
      (if d == RightOf then Some(2) else if d == Above then Some(4) else None)
    else if p == 2 then
      (if d == RightOf then Some(3) else if d == LeftOf then Some(1)
       else if d == Above then Some(5) else None)
    else
      (if d == Above then Some(6) else if d == LeftOf then Some(2) else None)
  }

  /** Whether `q` lies directly above, below, left of or right of `p`. */
  predicate Adjacent(p: Position, q: Position)
  {
    Neighbour(p, Above) == Some(q) || Neighbour(p, Below) == Some(q)
    || Neighbour(p, LeftOf) == Some(q) || Neighbour(p, RightOf) == Some(q)
  }

  /** Number of neighbours of a position. */
  function Degree(p: Position): nat
  {
    (if Neighbour(p, Above).Some? then 1 else 0)
    + (if Neighbour(p, Below).Some? then 1 else 0)
    + (if Neighbour(p, LeftOf).Some? then 1 else 0)
    + (if Neighbour(p, RightOf).Some? then 1 else 0)
  }

  /** The table is symmetric: q is in direction d of p exactly when p is in
      the facing direction of q (above/below, left of/right of). */
  lemma NeighbourSymmetric(p: Position, q: Position, d: Direction)
    ensures Neighbour(p, d) == Some(q) <==> Neighbour(q, Facing(d)) == Some(p)
  {
  }

  /** Corners have two neighbours, edge midpoints three, the centre four. */
  lemma NeighbourDegree(p: Position)
    ensures (p == 1 || p == 3 || p == 7 || p == 9) ==> Degree(p) == 2
    ensures (p == 2 || p == 4 || p == 6 || p == 8) ==> Degree(p) == 3
    ensures p == 5 ==> Degree(p) == 4
  {
  }

  /** The four neighbours of a position are distinct from each other and from
      the position itself, so the four capture checks of a move touch four
      different slots. */
  lemma NeighboursDistinct(p: Position, d: Direction, e: Direction)
    requires Neighbour(p, d).Some?
    ensures Neighbour(p, d) != Some(p)
    ensures d != e ==> Neighbour(p, d) != Neighbour(p, e)
  {
  }

  /** The empty positions among k..9, in ascending order (the loop of
      get_available_positions, which walks the board in key order 1..9). */
  function EmptyFrom(b: Grid, k: int): (r: seq<Position>)
    requires 1 <= k <= 10
    ensures forall p: Position :: p in r <==> k <= p && At(b, p).None?
    ensures forall i :: 0 <= i < |r| ==> k <= r[i]
    ensures forall i, j :: 0 <= i < j < |r| ==> r[i] < r[j]
    ensures |r| <= 10 - k
    decreases 10 - k
  {
    if k == 10 then []
    else if At(b, k).None? then [k as Position] + EmptyFrom(b, k + 1)
    else EmptyFrom(b, k + 1)
  }

  /** get_available_positions: exactly the empty slots, ascending. */
  function AvailablePositions(b: Grid): (r: seq<Position>)
    ensures forall p: Position :: p in r <==> At(b, p).None?
    ensures forall i, j :: 0 <= i < j < |r| ==> r[i] < r[j]
    ensures |r| <= 9
  {
    EmptyFrom(b, 1)
  }

  /** Two boards that are empty at the same positions, except that `pos` is
      empty in the first and occupied in the second. */
  predicate FilledOneSlot(b: Grid, b': Grid, pos: Position)
  {
    && At(b, pos).None? && At(b', pos).Some?
    && forall q: Position :: q != pos ==> (At(b, q).None? <==> At(b', q).None?)
  }

  lemma {:induction false} FillFrom(b: Grid, b': Grid, pos: Position, k: int)
    requires FilledOneSlot(b, b', pos)
    requires 1 <= k <= 10
    ensures |EmptyFrom(b', k)| == |EmptyFrom(b, k)| - (if k <= pos then 1 else 0)
    decreases 10 - k
  {
    if k < 10 {
      FillFrom(b, b', pos, k + 1);
    }
  }

  /** Filling one empty slot, and changing nothing else about which slots are
      empty, removes exactly one available position. */
  lemma FillOneSlot(b: Grid, b': Grid, pos: Position)
    requires FilledOneSlot(b, b', pos)
    ensures |AvailablePositions(b')| == |AvailablePositions(b)| - 1
  {
    FillFrom(b, b', pos, 1);
  }
}
