# Grid game engines in Dafny

A Dafny model of the rules engines of four small grid games, with proofs of what each engine
promises:

- **Go, browser version** (`go.js`, module `GoJs`, shared vocabulary in `GoBoard`). The
  module-level game state of `go.js` is the class `GoJs.GoEngine`: the board, the player to
  move, both capture counters, the pass count, the move history, the ko point, the last-move
  marker and the game-over flag. The model covers:
  - `placeStone`: the occupancy and ko checks, the tentative stone, the capture of neighbouring
    groups without liberty, the suicide check with its take-back, the ko rule, the move record
    and the turn switch;
  - the click wrapper `goClickHandler`;
  - `passMove`;
  - `endGame` with `countTerritory` and `floodFillTerritory`, and komi 6.5 counted in half
    points;
  - `undoMove`.

  `getGroup` and `floodFillTerritory` are searches over an explicit stack with a visited set,
  and `getLiberties` is a double loop over the group and its neighbours that collects a set.
  They are proved against value-level definitions: a group as a
  linked, closed, repetition-free list of one colour (`GoBoard.IsGroupOrder`), liberties as a
  set, and territory as the empty areas that border one colour only.

  A captured group that touches the new stone on two sides is listed twice in `captured`, as
  in the source. The capture counter and `undoMove` use that inflated length.
- **Go, Python version** (`go_game.py`, module `GoPy`). Class `GoPy.GoGame` has the fields of
  `GoGame`. `would_be_suicide` writes the probe stone and clears it again.
  `remove_captured_groups` removes every opponent group without liberty anywhere on the board
  and counts each stone once. `make_move` checks, places, captures, updates ko and records
  the move. `pass_move` ends the game on the second pass in a row.
- **Tetris** (`tetris.js`, modules `Tetris` for the value-level rules and `TetrisPlay` for the
  engine).
  - The well is an `array2<int>` rewritten in place by `lockPiece` and by the shifting loops
    of `clearLines`, which re-checks the same row after each shift.
  - `Piece` is a class with its rotation arithmetic.
  - `movePiece`, `rotatePiece`, `hardDrop` and the timer tick are methods of
    `TetrisPlay.TetrisGame`, each proved equal to a function of the old state.
  - Score, level and speed follow the table of `clearLines`.
- **Snake** (`snake.js`, module `Snake`). The globals of `snake.js` are the fields of
  `Snake.SnakeGame`. The model covers:
  - the direction-key rule;
  - one tick of `snakeGameLoop`: the head advances, wall and self collision end the game, and
    the snake grows on food (with the speed-up) or drops its tail otherwise;
  - the high-score update of `gameOverSnake`.

Random choices are parameters: the kind of the next Tetris piece (`k`), and the sequence of
cells the food placement would draw (`draws`).

## Model

| member | source | states |
|---|---|---|
| GoBoard.LibertiesMember | go.js:187-200 | a point is a liberty of a set of stones exactly when it is on the board, empty and orthogonally adjacent to one of the stones |
| GoBoard.NoLibertiesIff | go.js:187-200 | a group has no liberty exactly when every on-board neighbour of each of its stones is occupied |
| GoBoard.GroupUnique | go.js:157-185 | two search orders of the group of the same stone list the same set of points |
| GoBoard.GroupsMeet | go.js:280-320 | two groups or empty areas that share a point are the same set, so flood fills never overlap |
| GoBoard.GroupExists | go_game.py:61-83 | every point of the board has a group (a search result exists) |
| GoBoard.GroupSingleIffLone | go.js:127-132 | the placed stone's group has length 1 exactly when the stone has no neighbour of its colour |
| GoBoard.SetAtRestore | go_game.py:129-137 | writing a stone and then the point's old value back leaves the board as it was |
| GoJs.GetAdjacent | go.js:148-155 | the neighbours are exactly the on-board orthogonal neighbours, without repetition: 2 in a corner, 3 on an edge, 4 inside |
| GoJs.CaptureListCells | go.js:94-103 | every point of the capture list held an opponent stone |
| GoJs.CaptureListEmpty | go.js:94-103 | when no neighbouring opponent group lacks a liberty, the capture list is empty |
| GoJs.Score | go.js:229-239 | Black scores territory plus captures and White adds komi 6.5 (13 half points); the winner has the strictly larger score, and a draw never happens |
| GoJs.AreaTerritory | go.js:280-320 | whether a point of an empty area is territory of a colour depends only on the colours that the whole area borders |
| GoJs.TerritoryBound | go.js:259-278 | no point is territory of both colours, and Black's and White's territory together are at most the number of empty points |
| GoJs.NoStonesNoTerritory | go.js:312-317 | an area counts for a colour only when it touches that colour, so a colour without stones has no territory |
| GoJs.TerritoryStep | go.js:266-273 | crediting one whole empty area adds its size to a colour's count exactly when the area borders that colour only |
| GoJs.CaptureList | go.js:94-103 | the capture list of a tentative stone: over its neighbours in order, the whole group of each opponent neighbour whose group has no liberty, concatenated with repeats kept |
| GoJs.Suicide | go.js:119-125 | a stone is suicide when, once placed, it captures nothing and its own group has no liberty |
| GoJs.Placed | go.js:76-146 | an accepted placement: the point was empty and not the ko point; the stone is placed and the capture list removed; the stone's group has a liberty or captured something; ko goes to the single captured stone when a lone stone captured exactly one, and is cleared otherwise; the move is recorded with its captures; the mover's counter rises by their number; the turn passes; the pass count and the game-over flag stay |
| GoJs.Passed | go.js:202-221 | a pass: the pass count rises by one, the game is over exactly when it reaches two, ko is cleared, the pass is recorded, the turn passes, and board, counters and last-move marker stay |
| GoJs.TakenBack | go.js:322-367 | an undo: the last record is dropped, its player is to move again and ko is cleared; a pass lowers the pass count, not below zero; a placement empties its point, puts the captured stones back in the opponent's colour, takes the captures off the mover's counter, and puts the last-move marker on the previous record when that is a placement and clears it otherwise |
| GoJs.Territory | go.js:259-320 | the territory of a colour: every empty point whose empty area borders that colour and not the other |
| GoJs.PlacementStep | go.js:88-145 | an accepted placement keeps the engine invariant and is a placement step: the stone is on its point, the captured groups are removed, the mover's counter rises by the length of `captured`, one record is appended, ko is set or cleared, and the turn passes |
| GoJs.PlacementNotSuicide | go.js:119-125 | an accepted placement is never suicide |
| GoJs.PassInv | go.js:202-221 | passing keeps the invariant: the game is over exactly when two passes are pending, and the counters match the history |
| GoJs.UndoInv | go.js:322-367 | taking back the last move keeps the invariant |
| GoJs.UndoAfterPlace | go.js:322-367 | undoing a `placeStone` placement right after it restores the board, both capture counts, the player to move, the history and the pass count; only ko (cleared) and the last-move marker (the previous entry) differ |
| GoJs.UndoAfterClick | go.js:68-70 | undoing a stone placed by `goClickHandler` restores the state before the click except ko (cleared), the last-move marker (the previous entry) and the pass count, which stays 0 because the click cleared it and `undoMove` never restores it |
| GoJs.LiftAfterPlace | go.js:331-338 | emptying the placed point and putting the captured stones back gives the board before the placement |
| GoJs.UndoAfterPass | go.js:327-328 | undoing a pass that did not end the game restores the whole state except ko, which is cleared |
| GoJs.GoEngine.constructor | go.js:22-38 | a new game has an empty 19 by 19 board, Black to move, no captures, no passes, no history, no ko point and no last move |
| GoJs.GoEngine.PlaceStone | go.js:76-146 | the move is accepted exactly when the point is empty, is not the ko point and is not suicide; an accepted move is a placement step and keeps the invariant; a refused move changes nothing |
| GoJs.GoEngine.Commit | go.js:110-143 | the written state is the board after capture, the counter raised by the length of `captured`, ko on the single captured stone when a lone stone captured exactly one, the move recorded and the turn passed |
| GoJs.GoEngine.Click | go.js:52-74 | a click is ignored once the game is over or off the board; otherwise it places exactly when `placeStone` accepts, and a placed stone resets the pass count |
| GoJs.GoEngine.PassMove | go.js:202-221 | ignored once the game is over; otherwise a pass step (pass count up, ko cleared, record appended, turn passed) that ends and scores the game on the second pending pass |
| GoJs.GoEngine.EndGame | go.js:223-257 | the game is marked over and the result is the score of its board and capture counts |
| GoJs.GoEngine.UndoMove | go.js:322-367 | nothing happens with an empty history or a finished game; otherwise the state becomes the previous one as `TakenBack` defines it, and the invariant is kept |
| GoJs.TryPlace | go.js:88-125 | the suicide flag is set exactly for a suicide, which leaves the board untouched; otherwise the result is the board with the stone placed and the capture list removed, with the mover's group found on it |
| GoJs.FindCaptures | go.js:94-103 | the capture list is the concatenation, over the neighbours in order, of the opponent groups without liberty, each held by opponent stones |
| GoJs.GroupIfCaptured | go.js:96-101 | for one neighbour: its whole group when it is an opponent stone whose group has no liberty, and nothing otherwise |
| GoJs.LiftPlacement | go.js:331-338 | the placed point is emptied and every captured stone is set back to the opponent's colour |
| GoJs.PaintStones | go.js:105-108 | every point of the list is set to the value, one after the other |
| GoJs.GetGroup | go.js:157-185 | an empty point gives the empty list; otherwise the list starts at the stone and is without repetition, of its colour, linked and closed under same-colour adjacency |
| GoJs.PushSameColour | go.js:178-183 | the stack is extended, in order, with exactly the unvisited neighbours of the colour |
| GoJs.GetLiberties | go.js:187-200 | the result is the set of distinct empty points next to some stone of the group |
| GoJs.FloodFillTerritory | go.js:280-320 | the points newly visited are the whole empty area of the start point, its size is returned, and the owner is the one colour the area borders, or none |
| GoJs.FloodFillResult | go.js:286-317 | a finished search has listed the area of its start point, and each touch flag is set exactly when the area borders that colour |
| GoJs.CountedAll | go.js:264-277 | at the end of the scan the two counters are the territories of Black and White |
| GoJs.CountTerritory | go.js:259-278 | the results are exactly the number of points of Black's and of White's territory |
| GoJs.ScanPoint | go.js:266-273 | one point of the scan keeps the counters equal to the territory among the whole areas visited so far |
| GoPy.Offsets | go_game.py:54-58 | the candidate neighbours are exactly the orthogonally adjacent points |
| GoPy.NeighboursMember | go_game.py:52-59 | a point is reported as a neighbour exactly when it is on the board and orthogonally adjacent |
| GoPy.NeighboursCount | go_game.py:52-59 | no neighbour is reported twice, and there is one per side that is not on the edge |
| GoPy.GetNeighbors | go_game.py:52-59 | the loop returns the on-board neighbours in offset order |
| GoPy.GroupVisit | go_game.py:73-81 | adding a popped stone to the group and pushing its unlisted same-coloured neighbours keeps the search invariant |
| GoPy.PushSameColour | go_game.py:79-81 | the stack is extended with exactly the neighbours of the colour that are not in the group |
| GoPy.GetGroup | go_game.py:61-83 | an empty point gives the empty set; otherwise the set of stones connected to the start through stones of its colour |
| GoPy.CountLiberties | go_game.py:85-100 | the count is the number of distinct empty points next to the group |
| GoPy.ClearStones | go_game.py:118-119 | the points of the group are emptied and no other point changes |
| GoPy.DeadGroupPart | go_game.py:112-120 | an opponent group lies wholly among the dead stones when it has no liberty, and wholly outside them otherwise |
| GoPy.RemoveCaptured | go_game.py:102-122 | the result is the board with every opponent group without liberty emptied, and the count is the number of those stones, each counted once |
| GoPy.CheckPoint | go_game.py:112-120 | one point of the scan keeps the board equal to the original with the checked dead stones removed, and the count equal to their number |
| GoPy.FirstEmpty | go_game.py:197-200 | the result is the first empty point of the list, and none exactly when no point of it is empty |
| GoPy.Credit | go_game.py:186-187 | the mover's tally rises by the count and the other player's tally is unchanged |
| GoPy.AtariIff | go_game.py:146-148 | a stone is in atari exactly when its group, as found, has one liberty |
| GoPy.InAtariNext | go_game.py:143-149 | the capture test answers true exactly when some neighbour holds an opponent stone whose group has exactly one liberty |
| GoPy.InAtari | go_game.py:145-148 | true exactly when the point holds an opponent stone whose group has exactly one liberty |
| GoPy.FindEmptyNeighbour | go_game.py:197-201 | the result is the first empty neighbour in offset order, if any |
| GoPy.UpdateKo | go_game.py:189-204 | ko is the first empty neighbour when exactly one stone was captured and the new group has one liberty (the old ko stays when no neighbour is empty), and none otherwise |
| GoPy.LoneStoneLiberties | go_game.py:85-100 | a stone with only empty neighbours is a group of its own whose liberties are its on-board neighbours |
| GoPy.TestLibertyCounts | test_go_game.py:141-151 | on a 9 by 9 board a first stone in the centre has 4 liberties and one in the corner has 2 |
| GoPy.MoveOccupies | test_go_game.py:35-45 | after an accepted move the point holds the mover's stone, so a second move there is refused |
| GoPy.TwoPasses | test_go_game.py:100-107 | from a fresh turn one pass leaves the game running and the second pass in a row ends it |
| GoPy.DeadClosed | go_game.py:102-122 | a stone next to a dead stone of its colour is dead too |
| GoPy.ClearedGroupLift | go_game.py:102-122 | a group left after the capture was a group before it, none of its stones dead, and the capture only added liberties to it |
| GoPy.NoDeadAfterCapture | go_game.py:102-122 | after the capture no opponent group without liberty is left |
| GoPy.AtariCaptured | go_game.py:143-149 | an opponent group whose one liberty is the point played is captured by the move |
| GoPy.MoverHasLiberty | go_game.py:153-212 | a move that `make_move` accepts never leaves the new stone's group without a liberty |
| GoPy.Dead | go_game.py:102-122 | the stones a capture removes: every stone of the colour whose group has no liberty, anywhere on the board |
| GoPy.Cleared | go_game.py:115-120 | the board with a set of points emptied and every other point as it was |
| GoPy.PySuicide | go_game.py:124-151 | the suicide test: with the stone placed its group has no liberty, and no opponent neighbour's group has exactly one liberty on the board without the stone |
| GoPy.KoAfter | go_game.py:190-204 | the ko point after a move: when exactly one stone was captured and the new stone's group has one liberty, the first empty neighbour in offset order, keeping the old ko point when there is none; otherwise no ko point |
| GoPy.LegalMove | go_game.py:153-176 | a move is accepted when the game is not over, the point is on the board, empty and not the ko point, and the move is not suicide |
| GoPy.Moved | go_game.py:178-212 | an accepted move: the stone placed, the pass count reset, every dead opponent stone removed and counted once to the mover, the ko point updated, the move recorded and the turn passed |
| GoPy.Passed | go_game.py:214-231 | an accepted pass: the pass count rises, the game ends once it reaches two, the pass is recorded, the turn passes and ko is cleared |
| GoPy.GoGame.constructor | go_game.py:24-38 | a new game has an empty board of the given size, Black to move, no passes, no captures, no ko point and no history |
| GoPy.GoGame.IsValidPosition | go_game.py:48-50 | true exactly when the point is one of the board's points |
| GoPy.GoGame.RemoveCapturedGroups | go_game.py:102-122 | the board loses exactly its dead opponent groups and nothing else changes; the count is their number of stones |
| GoPy.GoGame.WouldBeSuicide | go_game.py:124-151 | the probed point is empty again afterwards and nothing else changes; the answer is true exactly for a move without liberty that captures nothing |
| GoPy.GoGame.MakeMove | go_game.py:153-212 | the move is accepted exactly when the game runs and the point is on the board, empty, not the ko point and not suicide; a refused move changes nothing; an accepted one places the stone, resets the pass count, removes and credits the captures, updates ko, records the move and passes the turn |
| GoPy.GoGame.PassMove | go_game.py:214-231 | refused once the game is over; otherwise the pass count rises, the game ends at two, the turn passes and ko is cleared |
| Tetris.ShapeFacts | tetris.js:29-79 | every orientation of every piece is a square of side 2 to 4 holding 0 and the piece's value, with a filled cell |
| Tetris.RotateRoundTrip | tetris.js:90-98 | the rotation stays in 0..3, and turning back undoes turning and the other way round |
| Tetris.SpawnFitsEmpty | tetris.js:82-88 | a new piece at orientation 0, row 0 and column floor(COLS/2) - ceil(width/2) fits in the empty well |
| Tetris.BelowBottom | tetris.js:195-214 | a piece with a filled cell that does not collide has its top row inside the well |
| Tetris.LandingFacts | tetris.js:190-193 | the landing row is at or below the start, every row down to it is free and one row lower collides |
| Tetris.KeptFacts | tetris.js:242-265 | every row is kept or counted as full; the kept rows are rows of the well that are not full; no full row means nothing changes |
| Tetris.CompactFacts | tetris.js:239-265 | after clearing, the well keeps its size and has no full row |
| Tetris.CompactNoFull | tetris.js:242-265 | a well without full rows is left unchanged |
| Tetris.CompactShift | tetris.js:251-263 | removing one full row, shifting the rows above it down and emptying the top row leaves one full row fewer and the same final outcome |
| Tetris.StampFull | tetris.js:216-237 | a locked piece fills at most as many rows as it has (at most 4), so the points table is never indexed past 4 |
| Tetris.ClearedCount | tetris.js:239-265 | clearing takes away exactly COLS occupied cells per cleared row and no other |
| Tetris.ClearedFacts | tetris.js:267-279 | the score rises by the points for the rows cleared times the old level, lines by their number, the level is floor(lines/10)+1 and never goes down, and the speed is max(100, 1000 - (level-1)*100) |
| Tetris.LevelMonotone | tetris.js:273-275 | more lines never give a lower level |
| Tetris.SpeedBounds | tetris.js:276 | the drop speed stays between 100 and 1000 milliseconds and is 1000 at level 1 |
| Tetris.Hits | tetris.js:195-214 | a piece collides when one of its filled cells is left of, right of or below the well, or on an occupied cell inside it; cells above the top never collide |
| Tetris.Compact | tetris.js:242-265 | the well after clearing: one empty row on top for each full row, then the other rows in their order |
| Tetris.MovedBy | tetris.js:171-181 | a move by (dx, dy) happens when the piece does not collide there, and the piece stays otherwise |
| Tetris.Rotated | tetris.js:183-188 | the piece turns clockwise unless the turned shape collides, in which case it keeps its orientation |
| Tetris.ClearedGame | tetris.js:239-283 | clearing: with no full row nothing changes; otherwise the rows are compacted, the score rises by the points for the count times the old level, the line count rises, and level and speed change only on a level-up |
| Tetris.Spawn | tetris.js:285-295 | the next piece becomes the falling one, a new piece of kind k waits, and the game ends when the new falling piece collides |
| Tetris.Locked | tetris.js:216-237 | locking: a piece with a cell above the well ends the game and writes nothing; otherwise its cells are written, full rows are cleared and the next piece spawns |
| Tetris.Dropped | tetris.js:190-193 | a hard drop: the piece falls to its landing row and locks there |
| Tetris.Ticked | tetris.js:297-304 | a tick: nothing once the game is over; otherwise the piece falls one row, or locks when it cannot |
| Tetris.InitialOk | tetris.js:108-125 | the starting state satisfies the game invariant |
| Tetris.MovedOk | tetris.js:171-181 | a move keeps the invariant; the piece either stays or moves by (dx, dy) to a place where it does not collide |
| Tetris.RotatedOk | tetris.js:183-188 | a rotation keeps the invariant and never leaves a piece that did not collide in a colliding orientation |
| Tetris.SpawnOk | tetris.js:285-295 | a spawn keeps the invariant: the next piece falls, a new one waits, and a colliding spawn ends the game |
| Tetris.LockedOk | tetris.js:216-237 | a lock keeps the invariant; a piece above the top ends the game with the well unchanged, otherwise the piece is written, full rows cleared and the next piece spawned |
| Tetris.DroppedOk | tetris.js:190-193 | a hard drop keeps the invariant |
| Tetris.DroppedIs | tetris.js:190-193 | a hard drop is a lock at the landing row, which is at or below the piece and free |
| Tetris.DropStep | tetris.js:190-191 | a move down during the drop succeeds exactly above the landing row |
| Tetris.TickedOk | tetris.js:297-303 | a tick keeps the invariant and leaves a finished game as it is |
| TetrisPlay.Collides | tetris.js:195-214 | true exactly when some filled cell is left, right or below the well or on an occupied cell at a row at or below the top; cells above the top never collide |
| TetrisPlay.WriteShape | tetris.js:217-233 | the loop stops exactly when a filled cell lies above the well, and then nothing was written; otherwise every filled cell is written into the well |
| TetrisPlay.RowFull | tetris.js:243-249 | true exactly when every cell of the row is occupied |
| TetrisPlay.CopyRow | tetris.js:255-257 | one row is copied over another and every other cell stays |
| TetrisPlay.ShiftDown | tetris.js:254-262 | the rows above the removed one move down one, the top row is emptied, the rows below stay |
| TetrisPlay.ClearFullRows | tetris.js:242-265 | the well ends with its full rows removed, the other rows in order shifted down and empty rows on top; the count is the number of full rows it had |
| TetrisPlay.Piece.constructor | tetris.js:82-88 | a new piece has orientation 0, the shape of that orientation, row 0 and the centred spawn column |
| TetrisPlay.Piece.Rotate | tetris.js:90-93 | the orientation turns one quarter clockwise modulo 4 and the shape follows it |
| TetrisPlay.Piece.RotateBack | tetris.js:95-98 | the orientation turns one quarter back modulo 4 and the shape follows it |
| TetrisPlay.TetrisGame.constructor | tetris.js:108-125 | an empty well, score 0, level 1, no lines, speed 1000, the first piece falling and the second waiting |
| TetrisPlay.TetrisGame.Collision | tetris.js:195-214 | the answer is whether the falling piece collides where it is |
| TetrisPlay.TetrisGame.MovePiece | tetris.js:171-181 | the piece moves by (dx, dy) and the answer is true exactly when it fits there; otherwise it stays where it was |
| TetrisPlay.TetrisGame.RotatePiece | tetris.js:183-188 | the piece turns clockwise unless the turned shape collides, in which case it keeps its orientation |
| TetrisPlay.TetrisGame.SpawnNewPiece | tetris.js:285-295 | the next piece falls, a piece of the given kind waits, and a colliding spawn ends the game |
| TetrisPlay.TetrisGame.ClearLines | tetris.js:239-283 | the full rows are removed and, when there were some, the score, lines, level and speed are updated as the rules say |
| TetrisPlay.TetrisGame.AddLines | tetris.js:267-279 | score and lines rise; the level is raised to floor(lines/10)+1 only when that is higher, and the speed follows it |
| TetrisPlay.TetrisGame.LockPiece | tetris.js:216-237 | the state after the lock is the one the lock rule defines, and the invariant holds |
| TetrisPlay.TetrisGame.HardDrop | tetris.js:190-193 | the piece moves down until a move fails and locks there; the loop terminates |
| TetrisPlay.TetrisGame.Tick | tetris.js:297-303 | nothing once the game is over; otherwise the piece falls one row, or locks when it cannot |
| Snake.OppositeFacts | snake.js:61-74 | no direction is its own reverse, and reversing twice gives it back |
| Snake.FirstFree | snake.js:77-94 | the food is the first draw that is off the snake |
| Snake.KeyOk | snake.js:54-75 | a key never queues the reverse of the current direction, and a finished game ignores keys; the invariant is kept |
| Snake.StepOk | snake.js:96-154 | a tick keeps the invariant: all segments on the grid, pairwise distinct and connected, food on a free cell, the queued direction not reversing the current one |
| Snake.StepMoves | snake.js:99-151 | a tick that does not end the game moves the head exactly one cell in the queued direction; on food the length grows by one, the score by 10 and the speed rises; otherwise the tail is dropped and length, score and speed stay |
| Snake.StepEnds | snake.js:119-131 | the game ends exactly when the new head leaves the grid or lands on any segment, even the tail, and then the snake is unchanged and the high score is the larger of it and the score |
| Snake.OverStays | snake.js:55 | once the game is over, ticks and keys change nothing |
| Snake.SpeedFloor | snake.js:142-147 | from the initial 150 the speed falls by 2 per piece of food and never below 50 |
| Snake.InitialOk | snake.js:24-37 | the starting snake of three segments, heading right, satisfies the invariant |
| Snake.OnBody | snake.js:87-92 | the scan answers true exactly when the cell is a segment of the snake |
| Snake.PickFood | snake.js:77-94 | the rejection loop returns the first draw that is off the snake |
| Snake.KeyPressed | snake.js:54-75 | a key queues its direction unless it reverses the current one; a finished game ignores keys |
| Snake.Ended | snake.js:276-286 | the game ends and the high score becomes the larger of it and the score |
| Snake.Step | snake.js:96-154 | one tick: nothing once over; otherwise the queued direction becomes current and the head moves one cell; leaving the grid or meeting any segment ends the game with the snake unchanged; on food the snake grows, the score rises by 10, new food is placed and the speed rises; otherwise the tail follows |
| Snake.SnakeGame.constructor | snake.js:17-44 | the stored high score, the three-segment snake heading right, score 0, a running game and food placed from the draws |
| Snake.SnakeGame.KeyPress | snake.js:54-75 | the state after a direction key is the one the key rule defines, and the invariant holds |
| Snake.SnakeGame.GameOver | snake.js:276-285 | the game ends and the high score becomes the larger of the high score and the score |
| Snake.SnakeGame.Tick | snake.js:96-154 | the state after a tick is the one the tick rule defines, and the invariant holds |

## Left out

- Drawing on the canvas (board, stones, blocks, next piece, snake, game-over screens) is not modelled: it is rendering only.
- DOM and event wiring is not modelled: `initGo`, `initTetris` and `initSnake` beyond the state they set up, `stop*`, `update*Info`/`update*Score`, and listener registration.
- The pixel-to-point conversion of `goClickHandler` (go.js:55-61) is left out. `GoJs.GoEngine.Click` takes the row and column and keeps the game-over guard, the bounds check and the pass reset.
- `tetrisKeyHandler` (tetris.js:143-169) only dispatches arrow and space keys to `movePiece`, `rotatePiece` and `hardDrop`, which are modelled one by one. The dispatch itself and the `preventDefault` calls are left out.
- Timers are left out: `setInterval`/`clearInterval` and the re-scheduling on a level-up or speed-up. Only the numeric drop speed and snake speed are kept.
- `Math.random` becomes a parameter:
  - in Tetris, the kind `k` of the next piece;
  - in Snake, the sequence `draws` of cells that `spawnFood` would draw.
- `Snake.PickFood`, `Snake.SnakeGame.Tick` and `Snake.SnakeGame.constructor` require some draw to be off the snake. Without a free draw the source's rejection loop never ends.
- `localStorage` is left out. The stored snake high score is a constructor parameter, and writing it back is not modelled.
- Snake speed: `initSnake` does not reset `snakeSpeed` (snake.js:11 sets it once, at load). So the constructor takes the speed a previous game left, as `lastSpeed`.
- The Python console code (`main`, `display_board`, `get_player_name`, input parsing) is left out, because it is terminal I/O.
- The Go board size of `go.js` is fixed at 19. The Python board size is a constructor parameter, as in `GoGame(size)`.
- Go player names and the Chinese winner strings of `endGame` are modelled as the datatype `Winner`. The `endGame` overlay is not modelled.
- GoPy.TestLibertyCounts: of the concrete scenarios in test_go_game.py, only the liberty counts and the move and pass scenarios are stated as lemmas. The capture scenario (test_go_game.py:57-66) and the three-stone group (test_go_game.py:118-130) are covered by the general `RemoveCaptured` and `GetGroup` contracts, not by concrete lemmas.
- GoJs.GoEngine.UndoMove: the state after an undo is the one `TakenBack` defines. It restores exactly what the source restores: ko is always cleared, and an undone pass leaves the last-move marker as it was, and undoing a stone placed by a click does not bring back the passes the click cleared (`GoJs.UndoAfterClick`). Undo is therefore not a full inverse of a move.
