# Final Fantasy VIII card game engine: a Dafny model

This project models the game engine of the "Final Fantasy VIII Card Game AI"
recommender (`FFVIII_CardGame_AI.py`), with proofs about it. Two sides, the
player `P` and the opponent `O`, place cards on a 3x3 board. The board's
positions are numbered like a numeric keypad:

    7 8 9
    4 5 6
    1 2 3

Each card has four strengths: top, left, right and bottom. A placed card
captures an adjacent card of the other side when the placed card's touching
edge is strictly stronger than that card's facing edge. The engine suggests
a move by a depth-bounded minimax search.

Modules, one file each:

- `Options` (`options.dfy`): the `Option` type. It stands for Python's `None`
  as an empty slot and as "no move".
- `Cards` (`cards.dfy`): the sides, the four edges of a card, and `Card` with
  `get_total_power`.
- `Board` (`board.dfy`): positions, the nine-slot board, and the fixed
  adjacency table of `get_neighbours`. That table is proved equal to a
  row/column definition. Also `get_available_positions`.
- `Game` (`game.dfy`): `GameState` with `make_move`, `next_possible_moves`,
  `game_over`, `get_winner` and `get_opposite_player`.
- `Search` (`search.dfy`): `evaluate_game_state`, `minimax` and `best_move`.

How the model represents the source:

- A hand is a sequence of cards with distinct symbols. This is the Python
  dictionary keyed by symbol: the loader always uses the card's symbol as
  the key, and a dictionary keeps insertion order.
- Removing a card from a hand keeps the order of the rest, as `del` does.
  That order matters because it is the inner-loop order of
  `next_possible_moves`.
- The board is a sequence of nine optional cards. Slot `p` is held at
  index `p - 1`.
- States are values. Each child state of the search is a fresh value, as the
  deep copy before each `make_move` gives.

What the code does, which the model follows even where the usual rules of
the card game differ:

- Points are two independent counters. They start at 0 (line 114), even when
  the loaded board already holds cards. A move gives the mover 1 point, plus
  1 for each capture, and takes 1 from the other side for each capture.
  Nothing keeps the two counters summing to 9. The model proves only what
  the code guarantees: each move raises the total by exactly 1.
- `evaluate_game_state` subtracts the points of the side opposite the side
  TO MOVE, not the side opposite `player`. So the evaluation is 0 whenever
  `player` is not the side to move.
- `minimax` switches between maximising and minimising by ply alone.
  `best_move` starts every child search at depth 1 with the maximising flag
  set, even though the opponent moves next.
- `get_winner` returns the opponent on a tie.

A consequence of the evaluation as written is proved in
`Search.DefaultDepthPicksFirst`. With the default depth of 3 and at least
three empty positions, every leaf of the search is a state where the root's
opponent is to move, so it scores 0. Every root move then scores 0, and
`best_move` returns the first move in `next_possible_moves` order: the
first card of the hand on the lowest-numbered empty position.

`minimax` fails in Python when it takes `max` or `min` of an empty list.
That happens when the search recurses into a state whose side to move has no
cards. The model makes this the precondition `Searchable`. The lemma
`Search.CoveredIsSearchable` shows that `Searchable` holds for every state
whose hands cover the board: the side to move holds at least half the empty
positions rounded up, and the other side half rounded down. This is five
and four cards on an empty board.

## Model

| member | source | states |
|---|---|---|
| `Cards.Opposite` | FFVIII_CardGame_AI.py:130-134 | the opposite side always differs from its argument, so with two sides it is the other one |
| `Cards.Facing` | FFVIII_CardGame_AI.py:155-188 | the edge that meets a neighbour: above pairs with below and left of with right of, in both directions, and never the same edge |
| `Cards.TotalPower` | FFVIII_CardGame_AI.py:47-48 | the total power of a card whose four strengths pass the loader's 1..10 check (lines 424-429) lies in 4..40 |
| `Board.Neighbour` | FFVIII_CardGame_AI.py:214-259 | the hand-written neighbour table agrees, for every position and direction, with the neighbour computed from rows and columns (one row up is +3, one column right is +1, none past an edge) |
| `Board.NeighbourSymmetric` | FFVIII_CardGame_AI.py:225-257 | q is in direction d of p exactly when p is in the facing direction of q |
| `Board.NeighbourDegree` | FFVIII_CardGame_AI.py:223-257 | corners have two neighbours, edge midpoints three, the centre four |
| `Board.NeighboursDistinct` | FFVIII_CardGame_AI.py:223-257 | a position is never its own neighbour, and different directions give different neighbours |
| `Board.AvailablePositions` | FFVIII_CardGame_AI.py:204-212 | a position is listed exactly when its slot is empty; the list is strictly ascending and has at most 9 entries |
| `Board.FillOneSlot` | FFVIII_CardGame_AI.py:145 | filling one empty slot, with no other slot changing between empty and full, shrinks the list of available positions by exactly one |
| `Game.IndexOf` | FFVIII_CardGame_AI.py:138 | the dictionary lookup finds a card with the requested symbol, and with distinct symbols it is the only one |
| `Game.RemoveAt` | FFVIII_CardGame_AI.py:143 | deleting a card from a hand keeps the remaining symbols distinct, and the deleted symbol is no longer held |
| `Game.CardToPlay` | FFVIII_CardGame_AI.py:138 | the card played is in the mover's hand and carries the requested symbol |
| `Game.CaptureCount` | FFVIII_CardGame_AI.py:152-188 | at most as many captures as the position has neighbours, so at most four |
| `Game.CaptureStep` | FFVIII_CardGame_AI.py:155-161 | one capture check flips the neighbour to the mover exactly when it exists, belongs to the other side and has a weaker facing edge, moving one point; otherwise the board is unchanged; hands, turn and empty slots never change |
| `Game.PlaceCard` | FFVIII_CardGame_AI.py:138-146 | the card leaves the mover's hand with the rest in order, the other hand is untouched, the card occupies the position and no other slot changes, the mover gains one point, and symbols stay distinct |
| `Game.ResolveCaptures` | FFVIII_CardGame_AI.py:152-188 | the four checks in the order above, left, right, below give the same result as judging every direction against the board before any flip; non-adjacent slots and empty slots are unchanged; the mover gains and the other side loses the capture count |
| `Game.CaptureStepsCommute` | FFVIII_CardGame_AI.py:152-188 | a capture in one direction never changes the decision in a later direction, because each check reads and writes only its own, distinct neighbour |
| `Game.MakeMove` | FFVIII_CardGame_AI.py:136-191 | the turn passes; the card leaves the mover's hand with the rest in order and the other hand untouched; it occupies the position with its owner unchanged; the mover gains 1 plus the captures and the other side loses the captures, so the total grows by 1; exactly one empty slot is filled |
| `Game.MakeMoveCaptures` | FFVIII_CardGame_AI.py:152-188 | after the move, each neighbour satisfying the capture rule against the old board belongs to the mover; every other neighbour is unchanged; every slot neither played nor adjacent is unchanged |
| `Game.FlipIffCaptures` | FFVIII_CardGame_AI.py:155-161 | a neighbour changes from the other side to the mover if and only if it belonged to the other side and the placed edge is strictly stronger than its facing edge, so ties and own cards never flip |
| `Game.MovesAt` | FFVIII_CardGame_AI.py:199-200 | the inner loop pairs each card of the hand, in order, with the position; a move is produced exactly when its symbol is held and its position is that one |
| `Game.MovesFor` | FFVIII_CardGame_AI.py:193-202 | the move list has one entry per pair of a position and a card |
| `Game.MovesForMembers` | FFVIII_CardGame_AI.py:193-202 | a move is listed exactly when its card is in the hand and its position is in the position list |
| `Game.MovesForOrder` | FFVIII_CardGame_AI.py:198-200 | entry i times the hand size plus j pairs the i-th position with the j-th card: positions in the outer loop, cards in the inner loop |
| `Game.NextPossibleMoves` | FFVIII_CardGame_AI.py:193-202 | a move is listed exactly when its card is in the hand of the side to move and its position is empty |
| `Game.NextPossibleMovesCount` | FFVIII_CardGame_AI.py:193-202 | there are (empty positions) times (hand size) moves, one per pair |
| `Game.FirstPossibleMove` | FFVIII_CardGame_AI.py:193-202 | when any move exists, the first one plays the first card of the mover's hand on the lowest-numbered empty position |
| `Game.GameOver` | FFVIII_CardGame_AI.py:124-128 | the game is over exactly when every position holds a card, that is, exactly when the list of available positions is empty |
| `Game.Winner` | FFVIII_CardGame_AI.py:118-122 | the player wins exactly when the player has strictly more points; the winner never has fewer points than the loser; a tie goes to the opponent |
| `Search.Evaluate` | FFVIII_CardGame_AI.py:288-290 | zero when `player` is not the side to move; otherwise the points of `player` minus those of the other side |
| `Search.Largest` | FFVIII_CardGame_AI.py:346 | the maximum of a non-empty list is one of its elements and bounds all of them |
| `Search.Smallest` | FFVIII_CardGame_AI.py:346 | the minimum of a non-empty list is one of its elements and is bounded by all of them |
| `Search.Children` | FFVIII_CardGame_AI.py:338-341 | one state per possible move, in move order, each the result of that move; each is valid, has the other side to move and one fewer empty position |
| `Search.Minimax` | FFVIII_CardGame_AI.py:329-334 | a finished game or a state at the depth bound scores its evaluation (the recursive case is stated by `Search.MinimaxAttained` and `Search.MinimaxBounds`) |
| `Search.ChildScores` | FFVIII_CardGame_AI.py:337-344 | where the search recurses there is at least one move, so the list passed to max or min is never empty and has one score per child |
| `Search.MinimaxAttained` | FFVIII_CardGame_AI.py:337-346 | in the recursive case the score equals the score of some child searched one level deeper with the flag negated |
| `Search.MinimaxBounds` | FFVIII_CardGame_AI.py:346 | in the recursive case the score is at least every child's score when maximising and at most every child's score when minimising |
| `Search.ZeroAtHorizon` | FFVIII_CardGame_AI.py:288-290 | if `player` is not to move, the depth bound is an even number of plies away and enough positions are empty for the game not to end first, minimax scores 0 |
| `Search.LeafScore` | FFVIII_CardGame_AI.py:333-334 | at the depth bound minimax scores 0 whenever `player` is not the side to move |
| `Search.HorizonStep` | FFVIII_CardGame_AI.py:337-346 | below a state with an empty position and depth short of the bound, minimax passes up the score of a child that is searchable one level deeper, has the other side to move and one fewer empty position |
| `Search.TwoPlies` | FFVIII_CardGame_AI.py:337-346 | below a state with at least two empty positions and at least two plies short of the bound, minimax passes up the score of a grandchild that is searchable two levels deeper, has the same side to move and two fewer empty positions |
| `Search.BestChild` | FFVIII_CardGame_AI.py:337-346 | the child whose score minimax passes up is valid, searchable one level deeper, has the other side to move and one fewer empty position |
| `Search.MoveKeepsHandsCover` | FFVIII_CardGame_AI.py:136-191 | a move keeps the hands covering the board: the new side to move still holds at least half the empty positions rounded up |
| `Search.CoveredIsSearchable` | FFVIII_CardGame_AI.py:329-346 | from a state whose hands cover the board, minimax never reaches a side to move with an empty hand, at any depth and bound |
| `Search.CoveredRootSearchable` | FFVIII_CardGame_AI.py:353-358 | from such a state every child searched by best_move is searchable |
| `Search.RootScores` | FFVIII_CardGame_AI.py:353-358 | one score per possible move, in move order |
| `Search.FirstMax` | FFVIII_CardGame_AI.py:359-361 | the position a strict greater-than scan settles on: no score is larger and every earlier score is strictly smaller |
| `Search.FirstMaxOfTies` | FFVIII_CardGame_AI.py:359-361 | when all scores tie the first move is kept |
| `Search.Scan` | FFVIII_CardGame_AI.py:350-368 | no move exactly when there are no moves (the comparison with minus infinity); otherwise the first move of largest score, with that score |
| `Search.BestMove` | FFVIII_CardGame_AI.py:349-368 | no move exactly when there is no possible move; otherwise the first possible move whose minimax score (depth 1, maximising, for the side to move) is largest, with that score |
| `Search.DefaultDepthPicksFirst` | FFVIII_CardGame_AI.py:349-368 | with depth 3 and at least three empty positions every root move scores 0, so the first move is chosen: the first card of the hand on the lowest-numbered empty position |

## Left out

- The YAML loader and its validation (lines 371-458), the command line and
  main program (lines 461-559), debug logging, and all text rendering
  (`Card.__str__`, `display_cards_horizontally`, `GameState.__str__`,
  `Player.__str__`). These are input and output. The loader's strength range
  is kept as the predicate `ValidStrengths`.
- The commented-out evaluation heuristics (lines 295-323), which are not
  code, and the unreachable second `return` in `minimax` (line 335).
- `previous_gamestate` (line 116), which nothing reads.
- The initial `current_player = None` (line 112). `get_opposite_player`
  returns `P` for it. The model's side to move is always `P` or `O`, since
  the loader always sets one.
- `-math.inf` as the starting best score in `best_move`. "No move yet" is
  `None`, and a first move always beats minus infinity.
- Deep copying and in-place mutation: states are immutable values, so each
  child is independent by construction.
- Game.MakeMove: requires the card to be in the mover's hand and the position
  to be empty. Python raises `KeyError` on a missing card and would
  overwrite an occupied slot without a check. `minimax` and `best_move` only
  play moves from `next_possible_moves` (lines 338-341, 353-356), which meet
  both, and the interactive loop checks the card against the hand (line 531)
  and the position against the empty positions (line 546) before it plays.
- Search.Minimax: requires `Searchable`, the exact condition under which
  Python's `max` and `min` never see an empty list. Outside it Python raises
  `ValueError`, which is not modelled.
- Search.BestMove: requires every root child to be `Searchable`, for the same
  reason.
- Hands with a repeated symbol cannot exist in Python, because a hand is a
  dictionary keyed by symbol. The model therefore requires `ValidState`
  (distinct symbols in each hand) wherever a move is made, and proves that
  every move keeps it.
- Integers are unbounded, as Python's are. Python's `max` and `min` return
  the first extreme element, and for integers the value is all that matters.
