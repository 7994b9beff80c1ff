# Five browser game engines, modelled in Dafny

This project models the rule engines of five games on a personal web site,
one Dafny module per game page:

- **Game2048** (`game2048.dfy`) covers the 4×4 tile game:
  - rotating the grid;
  - the single-pass slide-and-merge of a row, with its skip flag;
  - reducing the other three directions to a left move by rotation;
  - spawning a 2 or a 4 on a random empty cell;
  - the game-over test;
  - the page state: grid, score, best score and the game-over flag.
- **Minesweeper** (`minesweeper.dfy`) covers the three difficulty
  configurations, the board generator and the recursive flood fill. The
  generator draws mines by rejection sampling and counts the mines around
  each cell. The page's handlers for left click, right click (flag) and
  reset are modelled as well.
- **Snake** (`snake.dfy`) covers the interval step, the reverse-direction
  guard on keys, and the start and restart buttons. The step moves the
  head, detects a crash before committing and grows the snake on food.
- **TicTacToe** (`tictactoe.dfy`) covers the winner test over the eight
  lines, the click handler and the restart button.
- **Memory** (`memory.dfy`) covers the shuffled deck of eight emoji pairs,
  the flip/lock/match state machine of a click, the deferred step that turns
  a mismatched pair face down again, and the best-score rule.
- **Wrappers** holds `Option`.

Randomness is always an input:
- In 2048, `Spawn(draw, four)` gives the index into the list of empty cells
  (taken modulo its length) and says whether the tile is a 4.
- In Minesweeper, the generator gets the list of candidate mine cells the
  random generator would produce.
- In Snake, the tick gets the cell the next food would be put on.
- In Memory, the new game gets any permutation of the sixteen emojis.

Each piece takes the form of its source:
- Pure computations are functions with named results.
- Loops are methods whose `ensures` ties the result to a specification
  function; the properties are then lemmas about that function.
- Each page's state is a class. Its handlers are methods with `modifies`
  clauses, stating the whole new state, and they keep an invariant `Valid()`.

Three choices follow the source's own data:
- Minesweeper's flood fill is a recursive method over an `array2` that is
  updated in place.
- Minesweeper's page stores its board as a value; each handler copies it into
  a fresh array, as the page deep-copies the board.
- Memory's cards are objects updated in place. A card list is a sequence of
  references, because the page's array copies are shallow.

The model follows the page code as written, including where it behaves in
ways a player might not expect:
- In 2048, merging conserves the grid total. The total after a move plus
  spawn is the old total plus the spawned tile, not the old total plus the
  points gained.
- Snake's high score is only ever loaded, never raised.
- Snake's new food may land on the snake.
- Two direction keys pressed before one tick can reverse the snake into
  itself.

## Model

| member | source | states |
|---|---|---|
| Game2048.EmptyGrid | app/games/2048/page.tsx:11-13 | a 4×4 grid whose every cell is 0 |
| Game2048.Rotate | app/games/2048/page.tsx:40-48 | a 4×4 result in which cell (r, c) of the input lands at (c, SIZE-1-r) |
| Game2048.RotateGrid | app/games/2048/page.tsx:40-48 | the nested loop builds exactly the rotated grid |
| Game2048.RotateFour | app/games/2048/page.tsx:40-48 | four quarter turns give back the grid |
| Game2048.RotateNAdd | app/games/2048/page.tsx:89-94 | a turns then b turns equal a+b turns |
| Game2048.RotateBack | app/games/2048/page.tsx:83-97 | the (4 - rotations) % 4 turns after the move undo the rotations before it, in either order |
| Game2048.Compact | app/games/2048/page.tsx:56 | filtering keeps no zero and is the identity on rows without zeros |
| Game2048.MergeOnce | app/games/2048/page.tsx:58-73 | the pass splits its input, left to right, into blocks of one tile (copied) or two equal tiles (summed, counted in the gain), so no tile merges twice and the gain is the sum of the merged tiles |
| Game2048.SlideFourTwos | app/games/2048/page.tsx:58-76 | [2,2,2,2] slides to [4,4,0,0] gaining 8 |
| Game2048.SlideTwoTwos | app/games/2048/page.tsx:58-76 | [2,2,0,0] slides to [4,0,0,0] gaining 4 |
| Game2048.MergeIff | app/games/2048/page.tsx:58-73 | the pass leaves a row alone iff no two neighbours are equal, and otherwise shortens it |
| Game2048.SlideRowShape | app/games/2048/page.tsx:56-76 | a slid row has 4 cells and no tile after a zero |
| Game2048.SlideRowSum | app/games/2048/page.tsx:56-76 | sliding keeps the row's sum |
| Game2048.MergeLoop | app/games/2048/page.tsx:57-74 | the skip-flag loop produces the merge pass and its gain |
| Game2048.PadRow | app/games/2048/page.tsx:75 | the padding loop appends zeros up to SIZE |
| Game2048.SlideRowLoop | app/games/2048/page.tsx:56-75 | filter, merge loop and padding produce the slid row and the row's gain |
| Game2048.MoveLeft | app/games/2048/page.tsx:50-81 | the row loop yields a 4×4 grid of slid rows, moved when some row changed, and the summed gain |
| Game2048.MoveGrid | app/games/2048/page.tsx:83-97 | rotate, move left and rotate back yield the specified move for the direction |
| Game2048.MoveSum | app/games/2048/page.tsx:50-97 | every move keeps the grid total |
| Game2048.MovedIffChanged | app/games/2048/page.tsx:77-80 | moved holds iff the resulting grid differs from the input |
| Game2048.MoveDirect | app/games/2048/page.tsx:83-97 | the rotation trick equals sliding rows (left, right) or columns (up, down) directly towards the wall |
| Game2048.GameOverIffBlocked | app/games/2048/page.tsx:99-111 | the game-over test holds iff the grid is full and no two orthogonal neighbours are equal |
| Game2048.MovedLeavesRoom | app/games/2048/page.tsx:91-96 | a move that changed the grid leaves an empty cell, so a tile is always spawned after it |
| Game2048.ChooseEmpty | app/games/2048/page.tsx:19-29 | no cell iff the grid is full, otherwise an empty cell in range |
| Game2048.EveryEmptyCellReachable | app/games/2048/page.tsx:27 | every empty cell is chosen by some random draw |
| Game2048.GetRandomEmptyCell | app/games/2048/page.tsx:19-29 | the scanning loop chooses the cell ChooseEmpty names |
| Game2048.SpawnTileEffect | app/games/2048/page.tsx:31-38 | a full grid is returned unchanged; otherwise exactly one former zero becomes 2 or 4 and every other cell is kept |
| Game2048.SpawnSum | app/games/2048/page.tsx:31-38 | spawning raises the total by the new tile's value |
| Game2048.AddRandomTile | app/games/2048/page.tsx:31-38 | the method writes the tile SpawnTile specifies |
| Game2048.NewGrid | app/games/2048/page.tsx:122-123 | two spawns on the empty grid |
| Game2048.NewGridPlayable | app/games/2048/page.tsx:122-123 | a new grid still has empty cells and is not over |
| Game2048.IsGameOver | app/games/2048/page.tsx:99-111 | the loops return true iff the grid is full and no direction moves |
| Game2048.FindEmpty | app/games/2048/page.tsx:100-104 | the cell scan finds a zero iff there is one |
| Game2048.AnyMove | app/games/2048/page.tsx:105-109 | the direction loop reports whether some direction moves |
| Game2048.Game.constructor | app/games/2048/page.tsx:114-154 | a new grid, score 0, the stored best (0 when absent), and the effect applied |
| Game2048.Game.SyncEffect | app/games/2048/page.tsx:147-154 | best is raised to the score only when the score is larger; gameOver is recomputed |
| Game2048.Game.HandleMove | app/games/2048/page.tsx:172-205 | nothing changes when over or not moved; otherwise the moved grid plus one spawned tile, score plus the gain, best raised only to a larger score |
| Game2048.Game.Restart | app/games/2048/page.tsx:221-228 | a new grid, score 0, not over, best kept |
| Minesweeper.BoardConfig | app/games/minesweeper/page.tsx:13-22 | every configuration has fewer mines than cells; only Hard is not square |
| Minesweeper.AdjacentCountIsNeighbours | app/games/minesweeper/page.tsx:44-66 | the counted value is the number of mined in-grid cells among the 8 neighbours |
| Minesweeper.ZeroCountNoMine | app/games/minesweeper/page.tsx:44-66 | a count of 0 means no neighbour holds a mine |
| Minesweeper.CountAround | app/games/minesweeper/page.tsx:47-62 | the dr/dc loops produce the adjacent count |
| Minesweeper.PlacedCount | app/games/minesweeper/page.tsx:34-42 | the placement loop places the requested number of mines exactly when the draws hold that many distinct cells |
| Minesweeper.PlaceMines | app/games/minesweeper/page.tsx:34-42 | succeeds iff the draws contain enough distinct cells; cells hold a mine exactly when placed; nothing else changes |
| Minesweeper.FillCounts | app/games/minesweeper/page.tsx:44-66 | every non-mine cell gets its adjacent count, and mine cells keep 0 |
| Minesweeper.GenerateBoard | app/games/minesweeper/page.tsx:24-69 | a fresh rows×cols board, hidden and unflagged, mined exactly at the placed cells, with correct counts, on which every zero cell has no mined neighbour |
| Minesweeper.RevealCell | app/games/minesweeper/page.tsx:79-102 | only revealed flags turn on, and never on a flagged cell; a revealed or flagged target is a no-op; an unflagged target ends revealed; a numbered target reveals only itself; the revealed cells form a reveal order starting at the target in which each later cell neighbours an empty cell revealed before it; every hidden unflagged neighbour of a newly revealed empty cell is revealed |
| Minesweeper.RevealStart | app/games/minesweeper/page.tsx:80-81 | revealing the hidden unflagged target alone changes one cell, starts the reveal order with it and shrinks the hidden set |
| Minesweeper.Visit | app/games/minesweeper/page.tsx:87-97 | one neighbour of the fill: the recursive call on an in-grid hidden neighbour keeps the fill's invariant (flags kept, reveal order extended by what the call revealed), leaves that neighbour revealed or flagged, and never hides a cell again |
| Minesweeper.ChainStep | app/games/minesweeper/page.tsx:94-96 | the outer reveal order followed by the nested call's order is a reveal order of the whole fill |
| Minesweeper.ChainCovered | app/games/minesweeper/page.tsx:79-102 | every cell of one fill result's reveal order is revealed in any other result the click allows |
| Minesweeper.ClickSpecUnique | app/games/minesweeper/page.tsx:79-102 | the effect stated for a click determines the board: two results it allows are equal |
| Minesweeper.SafeFill | app/games/minesweeper/page.tsx:83-96 | on a correctly counted board a fill started on a non-mine reveals no mine |
| Minesweeper.CountedSafe | app/games/minesweeper/page.tsx:44-66 | on a counted board no empty cell touches a mine |
| Minesweeper.RevealAt | app/games/minesweeper/page.tsx:108-109 | only the clicked cell changes, and it becomes revealed |
| Minesweeper.ToggleFlag | app/games/minesweeper/page.tsx:129-130 | only the clicked cell's flag changes, revealed or not |
| Minesweeper.ToggleTwice | app/games/minesweeper/page.tsx:129-131 | two right-clicks restore the board |
| Minesweeper.CopyBoard | app/games/minesweeper/page.tsx:106 | the deep copy is a fresh array holding the same cells |
| Minesweeper.AllCleared | app/games/minesweeper/page.tsx:118-119 | true iff every cell is revealed or mined |
| Minesweeper.MineClickConsistent | app/games/minesweeper/page.tsx:108-113 | revealing a clicked mine gives a lost, consistent board |
| Minesweeper.SafeClickConsistent | app/games/minesweeper/page.tsx:115-122 | after a safe fill the board is still consistent, won exactly when cleared |
| Minesweeper.FlagConsistent | app/games/minesweeper/page.tsx:129-131 | flagging keeps a running board consistent |
| Minesweeper.FlagBoard | app/games/minesweeper/page.tsx:129-131 | the copied board with the flag toggled is exactly the toggled state, every other cell unchanged |
| Minesweeper.ClickBoard | app/games/minesweeper/page.tsx:106-122 | a mine reveals only itself and loses; otherwise the board is the flood fill's result as `ClickSpec` fixes it (flags kept, closed, connected to the click), and cleared is true exactly when all safe cells are shown |
| Minesweeper.NewBoard | app/games/minesweeper/page.tsx:137-138 | a consistent hidden board for the difficulty, mined at the placed cells |
| Minesweeper.Game.constructor | app/games/minesweeper/page.tsx:72-77 | Easy, a generated board, neither over nor won |
| Minesweeper.Game.HandleClick | app/games/minesweeper/page.tsx:104-123 | ignored once over or won; a mine (even flagged) reveals that cell and ends the game; otherwise the board is the flood fill's result as `ClickSpec` fixes it, and the game is won and over iff every safe cell is revealed |
| Minesweeper.Game.HandleRightClick | app/games/minesweeper/page.tsx:125-132 | ignored once over or won; otherwise toggles just that flag |
| Minesweeper.Game.ResetGame | app/games/minesweeper/page.tsx:134-141 | the chosen or current difficulty, a new board, neither over nor won |
| Snake.Shift | app/games/snake/page.tsx:66-70 | the head moves by exactly one cell in the direction's axis |
| Snake.ShiftOpposite | app/games/snake/page.tsx:66-70 | moving back the opposite way returns to the cell, and a move never stays put |
| Snake.Turn | app/games/snake/page.tsx:51-55 | a key never sets the reverse of the current direction, and other keys change nothing |
| Snake.TurnKey | app/games/snake/page.tsx:52-55 | each direction's key sets that direction unless it is the reverse |
| Snake.Step | app/games/snake/page.tsx:65-95 | crash iff the new head leaves the grid or meets any current segment; otherwise head first, eating iff head is on the food, length +1 when eating and unchanged otherwise, the rest being the old body (without its last segment when not eating) |
| Snake.StepKeepsValid | app/games/snake/page.tsx:73-94 | a committed step keeps the segments on the grid and pairwise distinct |
| Snake.TwoKeysReverse | app/games/snake/page.tsx:48-59 | two keys before a tick can reverse the direction, and a snake with a neck then crashes |
| Snake.Game.constructor | app/games/snake/page.tsx:13-27 | body [(8,8)], food (12,8), RIGHT, not started, score 0, the stored high score |
| Snake.Game.HandleKey | app/games/snake/page.tsx:49-56 | ignored before start or after game over; otherwise the guarded turn, nothing else changed |
| Snake.Game.Tick | app/games/snake/page.tsx:62-99 | no effect unless running; a crash ends the game with body, food and score kept; otherwise the committed step, score +1 and the new food only when eating; score stays length-1 and food stays on the grid |
| Snake.Game.StartGame | app/games/snake/page.tsx:101-103 | sets started and nothing else |
| Snake.Game.Restart | app/games/snake/page.tsx:105-112 | body [(8,8)], food (12,8), RIGHT, score 0, not over, started |
| TicTacToe.LineOwner | app/games/tic-tac-toe/page.tsx:24-25 | a player owns a line iff all three of its squares hold that player |
| TicTacToe.FirstLine | app/games/tic-tac-toe/page.tsx:23-27 | the owner of the first won line from k on, or none iff no such line is won |
| TicTacToe.Winner | app/games/tic-tac-toe/page.tsx:12-30 | a win for p iff p owns a line and no earlier line is won; a draw iff full with no line; no result iff not full with no line |
| TicTacToe.CheckWinner | app/games/tic-tac-toe/page.tsx:12-30 | the early-return loop and the fullness test return that result |
| TicTacToe.CountPlace | app/games/tic-tac-toe/page.tsx:35-36 | a mark on an empty square adds one to its player's count only |
| TicTacToe.Game.EmptyBoard | app/games/tic-tac-toe/page.tsx:8 | the empty board has no marks and no result |
| TicTacToe.Game.constructor | app/games/tic-tac-toe/page.tsx:8-10 | nine empty squares, X to move, no result |
| TicTacToe.Game.HandleClick | app/games/tic-tac-toe/page.tsx:32-45 | ignored on an occupied square or after a result; otherwise only that square takes the current mark, the result is recomputed and the turn passes only without one; count(X) − count(O) stays 0 or 1 |
| TicTacToe.Game.RestartGame | app/games/tic-tac-toe/page.tsx:47-51 | nine empty squares, no result, X to move |
| Memory.NewBest | app/games/memory/page.tsx:67-71 | a missing (or 0) best is replaced; otherwise only a smaller count replaces it, so the best never rises |
| Memory.PairsCount | app/games/memory/page.tsx:12 | the doubled emoji list holds every emoji exactly twice and nothing else |
| Memory.ShuffleHasPairs | app/games/memory/page.tsx:29-30 | any shuffle has 16 cards, each emoji exactly twice |
| Memory.Game.constructor | app/games/memory/page.tsx:15-26 | a new game with the stored best and no timers |
| Memory.Game.StartNewGame | app/games/memory/page.tsx:28-41 | 16 new face-down unmatched cards in shuffled order with ids = positions, none turned up, 0 moves, unlocked; pending timers stay |
| Memory.Game.HandleCardClick | app/games/memory/page.tsx:43-83 | ignored when locked or on a face-up or matched card; otherwise only that card turns up and joins the list; a second card adds one move; equal emojis match both, clear the list and unlock; unequal ones stay up, lock and schedule their un-flip |
| Memory.Game.ComparePair | app/games/memory/page.tsx:54-82 | the second-card branch: one more move, then the match (with the best-score rule on a finished deck) or the locked mismatch with its timer |
| Memory.Game.MarkMatched | app/games/memory/page.tsx:60-61 | the two cards, and only they, become matched |
| Memory.Game.ResolveMismatch | app/games/memory/page.tsx:74-80 | the oldest timer turns its two cards face down, shows its captured cards, clears the list and unlocks; no card becomes matched |

## Left out

- The flappy-bird and space-shooter pages are left out. They are
  floating-point frame physics, canvas drawing and network calls to a
  highscore service.
- Rendering is left out: JSX, animations, and 2048's merged/spawned cell
  highlighting with its animation timeouts. It affects no game state.
- Persistence is left out. Reading and writing browser storage is I/O. This
  covers 2048's saved grid and score, and the best scores of 2048, Snake and
  Memory. Stored bests enter as `Option` parameters, and 2048's restored grid
  is not modelled.
- Input decoding is left out: key-code dispatch and swipe thresholds on
  pixel distances. Handlers take a `Direction`, a `Key` or an index.
- Timers are not scheduled. Snake's interval is the `Tick` method. Memory's
  one-second timeout is a queue of pending `Timer` values fired by
  `ResolveMismatch`. Real time and interleavings with rendering are not
  modelled.
- Game2048: `copyGrid` is the identity on grid values.
- Game2048.Game.constructor models only a fresh start; restoring a saved grid
  and score is left out.
- Minesweeper.GenerateBoard: the source keeps drawing random cells until
  enough distinct ones carry a mine. The model consumes a finite list of
  candidate cells and reports `ok == false` when the list runs out first.
- Minesweeper.Game.constructor and Minesweeper.Game.ResetGame require a
  candidate list with enough distinct cells, standing for a random source
  that eventually hits them.
- Minesweeper.Game.HandleClick states the flood fill's effect through
  `ClickSpec` rather than a closed-form board: only revealed flags change,
  flagged cells stay as they were, the fill is closed, and every revealed cell
  is connected to the clicked cell through a reveal order. `ClickSpecUnique`
  proves that this determines the board. The order in which the recursion
  visits cells is kept only as a ghost value.
- Snake.Game.Tick does not exclude food on the snake's body, because the
  source draws food without that check.
- Snake's high score is only loaded, never raised, as in the source.
- Memory.Game.StartNewGame does not cancel pending timers, as in the source.
  A stale timer can bring back the cards of the previous deck:
  `ResolveMismatch` shows the card list the timer captured.
- Memory.NewBest treats a stored best of 0 like no best, as the source's
  falsy test does. A stored value that is not a number is not modelled.
