/** Cards, the two sides that own them, and the four edges of a card. */
module Cards {

  /** The two sides of a game: the player "P" and the opponent "O". */
  datatype Side = P | O

  /** The side that is not `s`; get_opposite_player applies it to the side to move. */
  function Opposite(s: Side): (r: Side)
    ensures r != s
  {
    if s == P then O else P
  }

  /** The four edges of a card. They double as the four directions in which a
      board position may have a neighbour. */
  datatype Direction = Above | Below | LeftOf | RightOf

  /** The edge of a neighbour in direction `d` that touches the placed card:
      a card's top meets the bottom of the card above it, and so on. */
  function Facing(d: Direction): (r: Direction)
    ensures r != d
    ensures (d == Above) <==> (r == Below)
    ensures (d == LeftOf) <==> (r == RightOf)
    ensures (d == Below) <==> (r == Above)
    ensures (d == RightOf) <==> (r == LeftOf)
  {
    match d
    case Above => Below
    case Below => Above
    case LeftOf => RightOf
    case RightOf => LeftOf
  }

  /** A card: the symbol that identifies it, the side that currently owns it,
      and its four strengths. Only the owner changes during play. */
  datatype Card = Card(symbol: string, owner: Side, top: int, left: int, right: int, bottom: int)
  {
    /** The strength on edge `d`. */
    function Value(d: Direction): int
    {
      match d
      case Above => top
      case Below => bottom
      case LeftOf => left
      case RightOf => right
    }
  }

  /** get_total_power: the sum of the four strengths. Every strength lies in
      1..10 for a card the loader accepts, so the sum lies in 4..40. */
  function TotalPower(c: Card): (r: int)
    ensures ValidStrengths(c) ==> 4 <= r <= 40
  {
    c.top + c.left + c.bottom + c.right
  }

  /** The range the loader demands of every strength. */
  predicate InStrengthRange(v: int)
  {
    1 <= v <= 10
  }

  /** The loader's per-card check on the four strengths. The owner check is
      enforced by the type `Side`. */
  predicate ValidStrengths(c: Card)
  {
    InStrengthRange(c.top) && InStrengthRange(c.left)
    && InStrengthRange(c.bottom) && InStrengthRange(c.right)
  }
}
