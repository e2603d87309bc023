# Flood-It solver (game.py) in Dafny

This project models the solver of a Flood-It puzzle. The board is an n×n grid of colours. A move
recolours the 4-connected region around the origin tile (0, 0). The solver makes moves until the
whole board has one colour or a cap of 12 moves is reached.

- `Board` (game.py:10-46) stores the grid and offers bounds-checked reads and writes, the origin's
  colour, and a deep copy.
- `Game` (game.py:56-167) has the following operations:
  - `flood_fill`: a recursive flood fill that shares a visited set across the recursion.
  - `choose_best_color`: a greedy choice. For every colour, it counts the (origin-coloured tile,
    neighbour of that colour) pairs.
  - `lookahead`: scores every other colour by the size of the origin's region after moving to it.
  - `play`: the loop that asks lookahead (depth 2) for a colour each turn and floods with it.

The project has five modules:

- `Grid` (grid.dfy) holds cells, square grids and adjacency. It defines 4-connected walks and
  `Component`, the region of a colour around a cell. It also defines `Fill`, which is that region
  recoloured.
- `Selection` (selection.dfy) holds the rule `min(counts, key=lambda c: (-counts[c], c))` as
  `Best`. Best returns the largest score, and the smallest colour among ties.
- `Boards` (board.dfy) holds the `Board` class. The list of lists of tiles becomes a
  `seq<seq<int>>` field that the write method reassigns.
- `Strategy` (strategy.dfy) holds the board-value functions the methods are proved against:
  - `Move`: one move.
  - `GreedyCounts` / `GreedyChoice`: the greedy tally and its choice.
  - `LookaheadScore` / `LookaheadCounts` / `LookaheadChoice`: the lookahead scores and choice.
  - `Solve`: the whole play-out for a given colour chooser. Play uses the chooser `PlayChoice`,
    which is lookahead at depth 2.
- `Games` (game.dfy) holds the `Game` class, one method per source function. Two methods split out
  a loop of the source so that its proof stays small:
  - `FillNeighbours`: the neighbour loop of `flood_fill`.
  - `TallyNeighbours`: the inner neighbour loop of `choose_best_color`.

  Two more split out a piece of a loop body:
  - `ScoreMove`: the scoring of one candidate in `lookahead`.
  - `Turn`: one iteration of `play`.

`FloodFill` is proved against a general contract, `Outcome`. It holds for any visited set on entry:
- The cells it repaints are the newly visited cells that had the target colour.
- Nothing else changes, and `size` counts the repainted cells.
- Every neighbour of a repainted cell has been visited.
- The repainted cells are connected to the start.

From an empty visited set, this means the fill repaints exactly `Component` and returns its size
(`OutcomeFromNothing`).

The evaluators `ChooseBestColor`, `Lookahead`, `ScoreMove` and `SimulateMove` have no `modifies`
clause. So they provably change no existing object. The simulations work on fresh clones.

## Model

| member | source | states |
|---|---|---|
| Boards.Board.constructor | game.py:11-18 | The board has the given size, number of colours and tile colours. |
| Boards.Board.GetTile | game.py:20-26 | A tile comes back exactly when (x, y) is on the board, and it carries that cell's colour. |
| Boards.Board.SetTileColor | game.py:28-33 | On the board, exactly (x, y) takes the colour and every other tile keeps its colour. Off the board, nothing changes. |
| Boards.Board.OriginColor | game.py:35-39 | Returns the colour of the tile at (0, 0). |
| Boards.Board.Clone | game.py:41-46 | A fresh board with the same size, number of colours and colour on every tile. Being fresh, later writes to either board leave the other untouched. |
| Grid.Colours | game.py:106 | The colour set is empty exactly when the board has no tiles. |
| Grid.ColoursSpec | game.py:106 | The colour set of the dictionary keys holds exactly the colours of the tiles. |
| Grid.Adjacent | game.py:65-75 | There are at most four neighbours. Each lies on the board at Manhattan distance 1 from (x, y). |
| Grid.AdjacentSpec | game.py:65-75 | The neighbour list holds exactly the on-board cells at Manhattan distance 1. It has at most four of them, in the order up, down, left, right, without repeats. |
| Grid.Component | game.py:77-97 | The region holds only tiles of the target colour. When the start is on the board and has that colour, the region holds the start. |
| Grid.Fill | game.py:77-97 | The result has the same size as the grid. Exactly the cells of the start's region take the replacement colour, and every other tile keeps its colour. |
| Grid.FillOwnColour | game.py:77-97 | Filling a region with its own colour leaves the grid unchanged. |
| Grid.FillColours | game.py:91 | A fill introduces no colour other than the replacement. |
| Games.Game.constructor | game.py:57-63 | A game on the board with no moves and a cap of 12 moves. |
| Games.Game.GetAdjacent | game.py:65-75 | Returns the candidates up, down, left, right that lie on the board, in that order (see Grid.AdjacentSpec). |
| Games.Outcome | game.py:77-97 | A fill outcome leaves an n×n board and has visited the start cell. Its size is at most the number of newly visited cells. |
| Games.NothingFilled | game.py:83-89 | A cell already visited, off the board or of another colour repaints nothing and adds only itself to the visited set. |
| Games.StartFill | game.py:85-92 | Repainting the start cell opens a fill that has repainted one tile. |
| Games.AbsorbSubFill | game.py:94-95 | The recursive fill from a neighbour repaints tiles disjoint from the earlier ones and still connected to the start. The counts add up. |
| Games.FinishFill | game.py:94-97 | After all neighbours are done, every neighbour of every repainted tile has been visited. |
| Games.Game.FillNeighbours | game.py:94-97 | The loop over the neighbours completes the fill from a repainted tile (Outcome). |
| Games.Game.FloodFill | game.py:77-97 | Outcome for any visited set. The three early exits return 0 and leave the board as it was. Target equal to replacement leaves the board as it was. |
| Games.FilledIsComponent | game.py:77-97 | From an empty visited set, the repainted tiles are exactly the 4-connected region of the target colour around the start. |
| Games.OutcomeFromNothing | game.py:77-97 | From an empty visited set, the board becomes Fill(board, start, target, replacement) and the size is the region's size. |
| Games.OutcomeSameColour | game.py:77-97 | A completed fill whose target equals its replacement leaves the board as it was. |
| Selection.BestExists | game.py:118 | A non-empty dictionary has a key preceding all others under (-score, colour). |
| Selection.Best | game.py:118 | min() returns one of the dictionary's keys. |
| Selection.BestSpec | game.py:118 | The chosen key has the largest score, and it is the smallest key among those that share that score. |
| Strategy.Move | game.py:127 | A move yields an n×n board whose origin has the chosen colour. |
| Strategy.UniformColours | game.py:153 | The board is solved (every tile has the origin's colour) exactly when its colour set is {origin colour}. |
| Strategy.GreedyCounts | game.py:106-115 | The greedy dictionary has exactly the board's colours as keys. |
| Strategy.GreedyChoice | game.py:118 | The greedy choice is a colour present on the board. |
| Strategy.GreedyOriginCountsZero | game.py:111-115 | The origin's own colour is never counted and keeps score 0. |
| Strategy.GreedyOriginIffUniform | game.py:99-119 | The greedy choice is the origin's colour if and only if the board is uniform. |
| Games.Game.TallyNeighbours | game.py:112-115 | Each colour's count grows by the number of neighbours of that colour, or by nothing for the origin's colour. |
| Games.Game.ChooseBestColor | game.py:99-119 | Returns GreedyChoice of the board, the min() over the full greedy tally. The board is not modified. |
| Games.Game.SimulateMove | game.py:121-128 | A fresh board holding Move(board, color). The board itself is not modified. |
| Strategy.LookaheadCounts | game.py:138-146 | The lookahead dictionary has exactly the board's colours as keys. |
| Strategy.LookaheadScore | game.py:143-146 | Every candidate scores at least 1: after the move, the origin lies in its own region. |
| Strategy.LookaheadChoice | game.py:130-149 | At every depth, the choice is a colour present on the board. |
| Strategy.ChoiceIsOriginIffUniform | game.py:130-149 | At every depth the choice is a colour on the board. It is the origin's colour exactly when the board is uniform. |
| Games.Game.ScoreMove | game.py:143-146 | The score of a candidate is the size of the origin's region on the board after moving to it. |
| Games.Game.Lookahead | game.py:130-149 | Returns LookaheadChoice(board, depth): greedy at depth 0, otherwise min() over the scores of every colour with the origin scoring 0. The board is not modified. |
| Strategy.PlayChoiceSound | game.py:157 | Lookahead at depth 2 proposes a colour on the board, and it proposes the origin's colour exactly on a uniform board. |
| Strategy.LeadsStep | game.py:156-161 | A turn that records the chooser's colour and makes that move extends the turns played so far by one turn of the play-out. |
| Strategy.LeadsStop | game.py:155-159 | With the budget spent or the origin's colour proposed, the turns played are the whole play-out. |
| Strategy.Solve | game.py:155-161 | A play-out ends on a non-empty square board. The Solve lemmas below state its moves. |
| Strategy.Replay | game.py:155-161 | Replaying any moves from a board leaves a non-empty square board. |
| Strategy.SolveWithinBudget | game.py:155 | A play-out records at most `budget` moves. |
| Strategy.SolveStopsOnlyWhenSolved | game.py:155-159 | A play-out that stops before its budget is spent leaves a uniform board. |
| Strategy.SolveUniformBoard | game.py:158-159 | A uniform board gets no moves. |
| Strategy.SolveMovesFromBoard | game.py:155-161 | Every move is a colour of the starting board, and the final board has no new colour. |
| Strategy.SolveReplays | game.py:155-161 | Move i is the chooser's colour on the board that moves 0..i-1 produced, and it differs from that board's origin colour. The final board is the start after all moves. |
| Strategy.PlayChoiceOutcome | game.py:151-167 | The play-out of play has these properties: (1) at most `budget` moves; (2) each move is lookahead(2)'s choice on the board reached so far, never that board's origin colour, and a colour of the starting board; (3) the final board is the start replayed; (4) it stops early only when solved; (5) a uniform board gives []. |
| Games.Game.Turn | game.py:156-161 | Stops exactly when lookahead(2) proposes the origin's colour, and then changes nothing. Otherwise it appends that colour to the moves and makes the move on the live board. |
| Games.Game.Play | game.py:151-167 | The moves appended and the board left are those of Solve(PlayChoice, board, remaining budget). On a new game the budget is 12, so with PlayChoiceOutcome there are at most 12 moves, each differing from the origin colour of its turn, and a uniform board gives []. |

## Left out

- Printing (`print_board`, game.py:48-54; the prints at game.py:162 and game.py:165) is output only and is not modelled.
- `generate_random_board` and the `__main__` example (game.py:169-190) use randomness and console I/O. A board is a parameter instead.
- The `Tile` class (game.py:3-8) is a box around one colour. Tiles are modelled as their colour, so Tile identity and aliasing between tiles are not represented. `Clone` still yields a separate object.
- Colours are integers ordered by `<`. The source compares its colour labels with Python's `<` (single letters from the generator, so alphabetical order). An integer here stands for a label's rank in that order.
- `m` (the number of colours) is only stored and copied, as in the source.
- Python's recursion limit is not modelled. `flood_fill` may raise RecursionError on a very large region; the model recurses without bound.
- Iteration order of the colour set in `lookahead` is not modelled: the loop picks any remaining colour. The result does not depend on that order.
- The lookahead score: the source fills the simulated board with `next_color` from the recursive lookahead (game.py:145-146). Only the returned size enters the score, and that size does not depend on the replacement colour. So the score is stated as the region's size after the move. `ScoreMove` still runs the recursive lookahead and the fill as the source does.
- Boards.Board.OriginColor requires a board with at least one tile (`n >= 1`). On an empty board, game.py:39 raises IndexError, and that error path is not modelled.
- Games.Game.ChooseBestColor requires `n >= 1`, because it reads the origin's colour at game.py:104. The IndexError on an empty board is not modelled.
- Games.Game.Lookahead requires `n >= 1`, because it reads the origin's colour at game.py:137 (or at game.py:104 at depth 0). The IndexError on an empty board is not modelled.
- Games.Game.ScoreMove requires `n >= 1`, because it is part of lookahead (game.py:143-146), which needs the origin's colour. The IndexError on an empty board is not modelled.
- Games.Game.Turn requires `n >= 1`, because it reads the origin's colour at game.py:156. The IndexError on an empty board is not modelled.
- Games.Game.Play requires `n >= 1`, because each turn reads the origin's colour at game.py:156. The IndexError on an empty board is not modelled. (With a cap of 0 moves, the source would not fail on an empty board. A new game's cap is 12.)
- Boards.Board.constructor requires `colors` to be an n×n matrix. The source does not check this (game.py:11-18). A ragged or short matrix would make later reads raise IndexError, and that error path is not modelled.
- The greedy tally counts around every tile of the origin's colour, as game.py:111 does, not only around the origin's connected region.
