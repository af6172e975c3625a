# Cops and robbers: the turn controller

A model of the rules engine of a cops-and-robbers board game, the `Controller` class
of `Assets/Scripts/Controller.cs`. Two cops and a robber stand on an N × N grid of
tiles, numbered row by row. After the player clicks a cop, a breadth-first search
marks the tiles that cop may move to. These are the tiles at most two steps away
that can be reached without entering a tile held by a cop. The player clicks one of
them and the cop moves there. Next the robber runs the same search and moves to a
tile chosen among the ones it marked. Ending the robber's turn counts one round;
clicks made while the cop's move or the robber's turn is pending go back to Init
without counting one.
The game is lost once the counter exceeds the maximum number of rounds, and
`PlayAgain` followed by `InitGame` starts it over.

The project has four modules:

- `Grid` (`grid.dfy`): the adjacency lists built by `InitAdjacencyLists` and
  `AddAdjacentTile`, written as a function with the guards of Controller.cs. It is
  compared with a row/column definition. Lemmas prove the shape of the lists, their
  bounds and their symmetry.
- `Tiles` (`tiles.dfy`): the tile record, `Tile.Reset`, and a reference definition
  of the tiles a piece may move to (`WithinTwo`: one or two cop-free steps). It also
  holds `Searched`, which states what the search leaves on the tiles, and the loop
  invariants of the search with their step lemmas.
- `Turns` (`turns.dfy`): the turn state machine as functions on the controller's
  fields: phase, round counter, clicked cop and tile, and piece positions. Sessions
  are sequences of player actions. Lemmas cover tile selection, round counting,
  game length, the final state and restart.
- `Game` (`controller.dfy`): the class `Controller`. Its tiles are an
  `array<Tile>`; its phase, counter, clicked cop and tile, and piece positions are
  mutable fields. Each method of Controller.cs is a method here, updating those
  fields in place with the same loops. The postconditions of `ClickOnCop`,
  `ClickOnTile`, `FinishTurn`, `PlayAgain` and `InitGame` tie the fields to the
  matching `Turns` function. The search
  method's postcondition is `Searched` for the mover's tile.

The game's constants (`TilesPerRow`, `MaxRounds` and the initial tiles of the three
pieces) are constructor parameters, with `NumTiles == TilesPerRow * TilesPerRow`
and `TilesPerRow >= 1`. A tile's index is its `numTile`. A tile's parent is
recorded as the parent's index.

Assumptions about code that is not part of this model:

- `Tile.Reset` clears `visited`, `distance`, `parent`, `selectable` and `current`
  and keeps `adjacency` (`Tiles.Reset`). `Tile.cs` is not part of this model.
- `CopMove.Restart(tile)` and `RobberMove.Restart(tile)` set the piece's
  `currentTile` to that tile. `CopMove.cs` and `RobberMove.cs` are not part of this
  model.

## Model

| member | source | states |
|---|---|---|
| Grid.NeighboursByRowCol | Assets/Scripts/Controller.cs:49-69 | The list built with Controller.cs's guards (bounds for up and down, `i % w != 0` for left, `(i + 1) % w != 0` for right) is the row/column list: up if the row is above 0, down if below `w - 1`, left if the column is above 0, right if below `w - 1`, in that order |
| Grid.NeighboursShape | Assets/Scripts/Controller.cs:49-69 | A tile has at most four neighbours, each a different tile of the board, none the tile itself, and each in the same row one column away or in the same column one row away |
| Grid.NeighboursAreTouching | Assets/Scripts/Controller.cs:49-69 | `j` is in tile `i`'s list exactly when the two share a row and are one column apart, or share a column and are one row apart |
| Grid.NeighboursSymmetric | Assets/Scripts/Controller.cs:49-69 | `j` is in `i`'s list exactly when `i` is in `j`'s |
| Grid.ThreeByThree | Assets/Scripts/Controller.cs:49-69 | On a 3 × 3 board, the corner 0 has neighbours [3, 1], the centre 4 has [1, 7, 3, 5] and the corner 8 has [5, 7] |
| Game.Controller.InitAdjacencyLists | Assets/Scripts/Controller.cs:49-61 | Every tile's adjacency list becomes `Grid.Neighbours` of its index, and everything else about the tiles is kept; every entry is a tile of the board |
| Game.Controller.AddAdjacentTile | Assets/Scripts/Controller.cs:63-69 | Appends `to` to the list of `from` exactly when the condition holds and `0 <= to < NumTiles`; no other tile changes |
| Game.Controller.constructor | Assets/Scripts/Controller.cs:16-28 | The constants `TilesPerRow`, `MaxRounds` and the three initial tiles are the arguments. The board holds `TilesPerRow²` tiles with the grid's adjacency lists and no marks; the pieces are on their initial tiles; the counter is 0, the clicked tile -1 and the state Init |
| Tiles.ResetIdempotent | Assets/Scripts/Controller.cs:72-79 | Resetting a tile keeps its adjacency list, and resetting twice is resetting once |
| Game.Controller.ResetTiles | Assets/Scripts/Controller.cs:72-79 | Every tile becomes its reset, so no tile is visited or selectable |
| Game.Controller.IsTileOccupiedByCop | Assets/Scripts/Controller.cs:253-262 | The result is true exactly when one of the cops stands on the tile |
| Game.Controller.FindSelectableTiles | Assets/Scripts/Controller.cs:213-251 | The marks satisfy `Searched` for the mover's tile (the selected cop's or the robber's). Only visited tiles change, the origin keeps its parent, and no adjacency list changes. The returned enqueue order starts with the origin, holds each tile at most once and holds exactly the visited tiles |
| Game.Controller.EnqueueNeighbours | Assets/Scripts/Controller.cs:237-247 | Every unvisited, cop-free neighbour of the dequeued tile is visited and appended to the queue: the old enqueue order is a prefix of the new one. The search invariant is kept, and each tile enqueued leaves one unvisited tile fewer. Every tile either is unchanged or was unvisited, is a neighbour of the dequeued tile, and is now visited and selectable with that tile as parent, one step farther from the origin (`VisitedFrom`) |
| Tiles.VisitedFromStep | Assets/Scripts/Controller.cs:240-246 | Visiting one more unvisited neighbour of the dequeued tile keeps `VisitedFrom`: every changed tile is such a neighbour, with the dequeued tile as parent |
| Tiles.SearchedWhenExpanded | Assets/Scripts/Controller.cs:224-250 | When every visited tile has been expanded, the marks are those of `Searched`. The origin is current, visited, at distance 0 and not selectable. Every other tile is visited exactly when it is selectable, and selectable exactly when it is one or two cop-free steps from the origin. A selectable tile is at distance 1 exactly when it is a cop-free neighbour of the origin, and 2 otherwise. Its parent is visited, one step closer, and lists it as a neighbour |
| Tiles.SearchDone | Assets/Scripts/Controller.cs:231-250 | When the queue is empty, the search's invariant gives `Searched` |
| Tiles.NoCopSelectable | Assets/Scripts/Controller.cs:240 | After a search, no selectable tile holds a cop or is the origin, and every selectable tile is at distance 1 or 2 |
| Tiles.OnlyOriginAtZero | Assets/Scripts/Controller.cs:226-244 | During the search, the origin is the only visited tile at distance 0 |
| Tiles.SearchStart | Assets/Scripts/Controller.cs:224-229 | Marking the origin current and visited at distance 0, on reset tiles, and enqueueing it establishes the search's invariant |
| Tiles.StartExpansion | Assets/Scripts/Controller.cs:233-237 | Dequeuing a tile closer than 2 starts its expansion with the invariant intact |
| Tiles.SkipExpansion | Assets/Scripts/Controller.cs:233-235 | Dequeuing a tile at distance 2 leaves it expanded, with nothing to add |
| Tiles.VisitStep | Assets/Scripts/Controller.cs:240-246 | Reaching an unvisited, cop-free neighbour sets its parent, distance and marks and appends it to the queue. This keeps the invariant, and the unvisited tiles drop by one |
| Tiles.VisitKeepsCore | Assets/Scripts/Controller.cs:242-245 | A tile reached this way is reached from its parent, and every tile reached earlier still is |
| Tiles.VisitKeepsEnqueued | Assets/Scripts/Controller.cs:246 | The enqueued tiles stay exactly the visited ones, each enqueued once |
| Tiles.VisitedOneMore | Assets/Scripts/Controller.cs:243 | Marking an unvisited tile visited removes exactly that tile from the unvisited ones: the measure that makes the loop terminate |
| Tiles.SkipStep | Assets/Scripts/Controller.cs:240 | A neighbour that is visited already or holds a cop is passed over with the invariant intact |
| Tiles.ExpansionDone | Assets/Scripts/Controller.cs:237-248 | Once every neighbour of the dequeued tile has been looked at, that tile is expanded, and the origin's cop-free neighbours are at distance 1 |
| Tiles.AllExpanded | Assets/Scripts/Controller.cs:231 | When the queue is empty, every visited tile has been expanded |
| Tiles.AdjacencyKept | Assets/Scripts/Controller.cs:213-251 | A search leaves every adjacency list as it was |
| Tiles.SearchAfterReset | Assets/Scripts/Controller.cs:72-79 | A search run on the reset of some tiles leaves every unvisited tile equal to the reset of its original, no tile other than the origin current, and the origin with no parent (`ResetOutside`) |
| Tiles.CoreBeforeOriginMark | Assets/Scripts/Controller.cs:150-151 | What the search did to the tiles with the origin marked current, it did to the tiles before the mark: only visited tiles change, the origin keeps its parent, and adjacency lists are kept |
| Game.Controller.ClickOnCop | Assets/Scripts/Controller.cs:81-97 | The fields follow `Turns.ClickOnCop`. In Init or CopSelected, the state becomes CopSelected and the tiles hold the search from the chosen cop's tile. The tiles were reset first: every unvisited tile is the reset of its old value, only the cop's tile is current, and that tile has no parent. In any other state the tiles are unchanged |
| Game.Controller.ClickOnTile | Assets/Scripts/Controller.cs:99-123 | The fields follow `Turns.ClickOnTile`, with the tile's own `selectable` mark. A cop moves only to a selectable tile, which is one or two cop-free steps from its old tile; that tile is then marked current and nothing else about the tiles changes |
| Turns.TileSelection | Assets/Scripts/Controller.cs:99-123 | The clicked tile is always recorded. The state becomes TileSelected exactly when a cop is selected and the tile is selectable, and then only the selected cop moves, to that tile. Otherwise no piece moves. TileSelected and RobberTurn go back to Init, and every other state stays |
| Game.Controller.FinishTurn | Assets/Scripts/Controller.cs:125-145 | The fields follow `Turns.FinishTurn`, with the robber's new tile. After the cops' move, the tiles were reset and hold the robber's search: every unvisited tile is the reset of its old value, only the robber's old tile is current, and that tile has no parent. The robber stays put exactly when no tile is selectable; otherwise it moves to a selectable tile, one or two cop-free steps from its old one. After the robber's move, every tile is reset |
| Turns.RoundCounting | Assets/Scripts/Controller.cs:125-145 | From RobberTurn, the counter goes up by exactly 1. The game ends exactly when the new count exceeds `MaxRounds`, and is back in Init otherwise. From TileSelected, only the robber moves and the state is RobberTurn. Other states are unchanged |
| Game.Controller.RobberTurn | Assets/Scripts/Controller.cs:147-173 | The tiles hold the search from the robber's tile. The robber stays exactly when no tile is selectable; otherwise it moves to a selectable tile, one or two cop-free steps from its old one. Only visited tiles change, the robber's old tile keeps its parent, and no adjacency list changes |
| Game.Controller.SelectableTiles | Assets/Scripts/Controller.cs:153-161 | The result lists, in increasing order, exactly the indices of the selectable tiles |
| Tiles.CollectStep | Assets/Scripts/Controller.cs:155-161 | Looking at one more tile adds it to the list exactly when it is selectable, and keeps the list exact and in order |
| Game.Controller.EndGame | Assets/Scripts/Controller.cs:176-184 | The state becomes End |
| Game.Controller.PlayAgain | Assets/Scripts/Controller.cs:186-200 | The fields follow `Turns.PlayAgain`: pieces on their initial tiles, counter 0, state Restarting. Every tile is reset |
| Game.Controller.InitGame | Assets/Scripts/Controller.cs:202-206 | The fields follow `Turns.InitGame`: the state becomes Init |
| Game.Controller.IncreaseRoundCount | Assets/Scripts/Controller.cs:208-212 | The counter goes up by exactly one |
| Turns.StepKeepsRounds | Assets/Scripts/Controller.cs:125-145 | Any action keeps the counter at most `MaxRounds + 1`, and equal to it exactly in End. The exception is InitGame sent while the game is over |
| Turns.RunKeepsRounds | Assets/Scripts/Controller.cs:125-206 | Along a whole session in which InitGame only follows PlayAgain, the counter stays in that range |
| Turns.PlayOneRound | Assets/Scripts/Controller.cs:81-145 | One full round from Init (click a cop, click a selectable tile, end the turn twice) moves that cop and the robber and counts one round. It ends in Init, or in End once the count exceeds `MaxRounds` |
| Turns.RunAppend | Assets/Scripts/Controller.cs:81-206 | Running two action lists in turn is running their concatenation |
| Turns.RoundsAllowed | Assets/Scripts/Controller.cs:81-97 | The actions of rounds that click existing cops are all allowed |
| Turns.EndIsFinal | Assets/Scripts/Controller.cs:81-145 | Once the game is over, clicks and turn ends leave it over, with the counter and the pieces unchanged |
| Turns.RoundsHaveNoRestart | Assets/Scripts/Controller.cs:81-145 | Playing rounds never sends PlayAgain or InitGame |
| Turns.PlayRounds | Assets/Scripts/Controller.cs:81-145 | From Init, after a number of full rounds, the counter is the number played, capped at `MaxRounds + 1`. The state is Init while that number is at most `MaxRounds`, and End after |
| Turns.GameLength | Assets/Scripts/Controller.cs:135-142 | A fresh game is in Init after at most `MaxRounds` full rounds and in End after more: the round that takes the counter to `MaxRounds + 1` ends it |
| Turns.RestartFromAnyState | Assets/Scripts/Controller.cs:186-206 | From any state, PlayAgain then InitGame gives Init, with the counter at 0 and the pieces on their initial tiles; PlayAgain twice is PlayAgain once |

## Left out

- `InitTiles` and `Start`: the walk over the scene's board objects is replaced by an
  array built by the constructor. `GetComponent`, `MoveToTile` animation and the
  `Text`/`Button` updates (`rounds.text`, `finalMessage.text`,
  `playAgainButton.interactable`) are presentation and are not modelled.
- `Random.Range` in `RobberTurn`: the robber's target is any index into the list of
  selectable tiles (a nondeterministic choice), so no distribution is modelled.
- `Tile.Reset` and `Restart(tile)`: their bodies are not part of this model. The
  assumptions above take their place.
- No cop win: nothing in the controller calls `EndGame(true)`. `EndGame`'s argument
  only chooses the final message and is otherwise ignored.
- Integer overflow of `roundCount` is not modelled: the counter is a `nat`.
- Game.Controller.ClickOnCop: requires `copId` to name one of the two cops, where the
  C# code would fail with an out-of-range index.
- Game.Controller.ClickOnTile: requires, in CopSelected, a tile of the board, where
  the C# code would fail with an out-of-range index.
- Game.Controller.EnqueueNeighbours: the inner `foreach` over the dequeued
  tile's adjacency list is a separate method here. It has the same loop, the same
  order and the same effect on the tiles and the queue.
- Game.Controller.FindSelectableTiles: requires reset tiles (no tile visited or
  selectable). Every caller resets them first (`ClickOnCop`, and `FinishTurn`
  before `RobberTurn`), and Controller.cs relies on that. The same holds for
  Game.Controller.RobberTurn.
- Game.Controller.SelectableTiles: the `foreach` that collects the selectable tiles
  in `RobberTurn` is a separate method here, with the same loop and order. It
  collects tile indices instead of tile references.
- Game.Controller.FindSelectableTiles: the tile a node's `parent` points to is
  recorded by index, and the queue holds tile indices instead of tile references.
  Since `numTile` is the index, this is the same information.
- The game ends only after `MaxRounds + 1` robber turns: the code goes back to Init
  while `roundCount <= MaxRounds`. The model follows the code, not a reading of
  "`MaxRounds` rounds".
- Turns.RunKeepsRounds: assumes every InitGame directly follows PlayAgain, except
  that the session may begin with InitGame while the game is not over. `InitGame` itself sets Init from any state, End included, and
  the model keeps that.
