# Quarto referee, board and agents in Dafny

This project models the core of a Java Quarto system for a 5x5 board and 32
pieces. Each piece has five two-valued characteristics. A row, column or
diagonal wins when it is full and all its pieces share one characteristic.
The model covers:

- **Pieces.** `QuartoPiece` records its id and derives its characteristics
  from the id's zero-padded binary name. It also records whether it is in
  play and on which cell.
- **The board.** `QuartoBoard` is a grid of piece references plus the array
  of all pieces. It supports:
  - guarded insertion;
  - the counting win tests of rows, columns and diagonals;
  - the full-board test and the deep copy;
  - the sequential "first unplaced piece" / "first empty cell" scans and the
    random pickers built on them, which fall back to the scans.
- **The referee.** `QuartoServer` asks one player for a piece and the other
  for a cell. It validates each reply, or substitutes a random legal choice.
  It writes the ACK/ERR/MOVE/GAME_OVER lines, checks for a win before it
  checks for a draw, and swaps the players' roles.
- **The semi-random client.** `QuartoSemiRandomAgent` takes a cell that wins
  on the spot if there is one. It hands over the least piece that cannot win
  on the spot.
- **The tree-search helpers of `QuartoPlayerAgent`.** These are the tree
  nodes and their action lists, `addChild`, `expand`, the random playout
  `playGame`, rotation and equality of boards, and `argmax`.

The modules, in dependency order:

| module | file | contents |
|---|---|---|
| `Java` | java.dfy | the Java library behaviour the code relies on:<br>• the 32-bit `int` range<br>• `Integer.toBinaryString` and `String.format("%5s", …).replace(' ', '0')`<br>• `Integer.parseInt` in bases 2 and 10<br>• the decimal text of an `int`<br>• `String.split`<br>• `Math.random()` as an oracle of draws |
| `Piece` | piece.dfy | the `QuartoPiece` class |
| `Rules` | rules.dfy | the game on values:<br>• grids of optional ids and positions (grid, in-play flags, recorded rows and columns)<br>• the win rule<br>• `Insert`<br>• the pickers and heuristics as functions<br>• rotation |
| `Board` | board.dfy | the `QuartoBoard` class, proved against `Rules` |
| `Server` | server.dfy | the message texts, reply parsing, the `GameServer` log and the `QuartoServer` class |
| `SemiRandomAgent` | semi_random_agent.dfy | the semi-random client |
| `Playout` | playout.dfy | the action lists of the search nodes and `playGame`'s playout, as functions |
| `PlayerAgent` | player_agent.dfy | `Node`, `expand`, `playGame`, `defaultPolicy`, the semi-random helpers, rotation, equality, `argmax` |

How the model stands in for the environment:

- **Randomness.** `Math.random()` is a parameter `draws: nat -> Draw`, with
  values in [0, 1), and a cursor `at` counts the draws used so far. Every
  picker returns the next unused cursor. So each property holds for every
  sequence of draws. `(int)(Math.random() * n)` is the floor of `d * n`.
- **The network.** `GameServer`'s socket is a log `messages` of the lines
  written, each tagged with its recipient. It is also an oracle `replies` of
  the lines read; a `None` reply stands for the `null` of a timeout.
- **Board classes.** The classes are proved against value functions in
  `Rules`:
  - `Position()` reads a `QuartoBoard` as a `Rules.Position`.
  - `Valid()` is the class invariant: the shape, the pieces' ids, and
    characteristics agreeing with the ids.

Where the code and the system's written description disagree, the model
follows the code:

- **Occupied cells.** `insertPieceOnBoard` does not check that the cell is
  empty (QuartoBoard.java:68). A second, different piece placed on an occupied
  cell is accepted and replaces the first. The first piece is then in play at
  a cell that no longer holds it; `Rules.InsertOnOccupiedCellBreaksCoherence`
  exhibits this. The referee and the agents only ever insert into empty cells,
  so `Rules.Coherent` holds throughout their runs.
- **The random fallback is not a uniform choice.** The fallback makes up to
  100 draws over all ids or all cells, and each draw that hits a used
  target costs one attempt. After 100 misses it takes the first free target
  in id order or row-major order. The model states which target results for
  every sequence of draws, and says nothing about probabilities.
- **The value of a winning leaf.** A winning leaf created by `expand` always
  gets the value 1 (QuartoPlayerAgent.java:281-283 lack an `else`).
  `PlayerAgent.NewMoveChild` and `PlayerAgent.Expand` model this as written; the
  corrected kind is in the Findings table.
- **Whose score a playout returns.** The score of a playout is relative to
  `playGame`'s `player1` flag: it is 1 when the winning placement was made
  with the flag set (`Playout.PlayoutWinner`). `defaultPolicy` sets the flag
  to `false` for a playout that starts with a piece selection, and to `true`
  otherwise, whatever node it was called for.

## Model

| member | source | states |
|---|---|---|
| Java.PadTo5 | QuartoPiece.java:72 | the padded name has at least 5 characters, and a numeral of 5 or more characters is left unchanged |
| Java.BinaryNameBits | QuartoPiece.java:68-84 | for 0 <= id < 32 the padded binary name has exactly 5 characters, and character i is bit 4 - i of id |
| Java.ParseInt | QuartoServer.java:129 | a successful parse yields a value in Java's `int` range, so a text naming a number outside it is an error (None) |
| Java.ParseBinaryName | QuartoServer.java:129 | round trip: `parseInt(name, 2)` of the padded binary name of 0 <= id < 32 gives back id |
| Java.IntToStringParses | QuartoServer.java:158-159 | round trip: `parseInt(s, 10)` of the decimal text of any `int` gives it back, and that text contains no ',' |
| Java.Split | QuartoServer.java:157 | the fields between separators, trailing empty ones kept; always at least one field |
| Java.DropTrailingEmpty | QuartoServer.java:157 | the kept fields are a prefix of the fields, every dropped field is empty and the last kept field is not |
| Java.JavaSplit | QuartoServer.java:157 | `String.split`: a text without the separator is its only field, otherwise the fields with the trailing empty ones removed |
| Java.SplitNoSeparator | QuartoServer.java:157 | a string without the separator splits into itself alone |
| Java.SplitTwo | QuartoServer.java:157 | `a + "," + b`, with no ',' in a or b, splits into exactly [a, b] |
| Java.RandomIndex | QuartoBoard.java:269 | `(int)(Math.random() * n)` lies in [0, n) for every draw |
| Piece.CharacteristicIsBit | QuartoPiece.java:68-84 | for 0 <= id < 32 the characteristics are 5 flags, flag i set exactly when bit 4 - i of id is 1 |
| Piece.CharacteristicsDetermineId | QuartoPiece.java:68-84 | two game ids with the same characteristics are equal, so the 32 pieces are all different |
| Piece.QuartoPiece.constructor | QuartoPiece.java:16-26 | a new piece keeps its id, is not in play, has row = column = -1 and characteristics derived from the id |
| Piece.QuartoPiece.Copy | QuartoPiece.java:29-39 | the copy has the same id, in-play flag, row and column, and (recomputed) the same characteristics, in a fresh array |
| Piece.QuartoPiece.SetPosition | QuartoPiece.java:41-45 | row and column are stored and the piece is in play; id and characteristics are constant |
| Piece.QuartoPiece.SetInPlay | QuartoPiece.java:60-62 | only the in-play flag changes |
| Piece.QuartoPiece.SetCharacteristics | QuartoPiece.java:68-84 | the loop leaves characteristics[i] set exactly when character i of the padded binary name is '1' |
| Piece.QuartoPiece.Trait | QuartoPiece.java:86-100 | characteristic k is character k of the name being '1', which for a game id is bit 4 - k |
| Piece.QuartoPiece.IsTall | QuartoPiece.java:86-88 | characteristic 0; for a game id, tall exactly when id >= 16 |
| Piece.QuartoPiece.IsSolid | QuartoPiece.java:89-91 | characteristic 1; for a game id, bit 3 of the id |
| Piece.QuartoPiece.IsWhite | QuartoPiece.java:92-94 | characteristic 2; for a game id, bit 2 of the id |
| Piece.QuartoPiece.IsWood | QuartoPiece.java:95-97 | characteristic 3; for a game id, bit 1 of the id |
| Piece.QuartoPiece.IsRound | QuartoPiece.java:98-100 | characteristic 4; for a game id, bit 0 of the id |
| Piece.QuartoPiece.GetHeight | QuartoPiece.java:103-109 | the word is "tall" or "short", "tall" exactly when the piece is tall |
| Piece.QuartoPiece.GetStructure | QuartoPiece.java:110-116 | the word is "solid" or "hollow", "solid" exactly when the piece is solid |
| Piece.QuartoPiece.GetColor | QuartoPiece.java:117-123 | the word is "white" or "black", "white" exactly when the piece is white |
| Piece.QuartoPiece.GetMaterial | QuartoPiece.java:124-130 | the word is "wood" or "metal", "wood" exactly when the piece is wood |
| Piece.QuartoPiece.GetShape | QuartoPiece.java:131-137 | the word is "round" or "square", "round" exactly when the piece is round |
| Piece.QuartoPiece.BinaryStringRepresentation | QuartoPiece.java:142-144 | for a game id the name has 5 characters over {'0','1'} and parses in base 2 back to the id |
| Rules.TraitIsCharacteristic | QuartoPiece.java:68-84 | the win rule's characteristic k of an id is what setCharacteristics stores in characteristics[k] |
| Rules.RowCellsLine | QuartoBoard.java:118-127 | the cells checkRow visits read row r; for a row off the board they read a line that is not full, so the check fails |
| Rules.ColumnCellsLine | QuartoBoard.java:147-156 | the same for checkColumn and the columns |
| Rules.DiagonalCellsLines | QuartoBoard.java:181-213 | checkDiagonals' two walks read the main diagonal (k, k) and the anti-diagonal (4 - k, k) |
| Rules.CountTraitExtremes | QuartoBoard.java:121-132 | a count of characteristic k over n cells lies in [0, n]; it is 0 exactly when no cell has k, and n exactly when every cell does |
| Rules.CountDecidesShare | QuartoBoard.java:134-142 | on a full line of five, "the count is 0 or 5" holds exactly when all five pieces agree on characteristic k |
| Rules.Insert | QuartoBoard.java:65-79 | when the guard fails (cell off the board, id out of range, piece in play) nothing changes; otherwise the cell holds the piece, which is in play at that cell, and no other cell or piece changes |
| Rules.InsertKeepsCoherent | QuartoBoard.java:65-79 | inserting into an empty cell keeps every placed piece on its recorded cell and every filled cell holding a piece in play |
| Rules.InsertOnOccupiedCellBreaksCoherence | QuartoBoard.java:68-77 | the guard lets a second piece onto an occupied cell, and the board is then incoherent |
| Rules.EmptyCountFull | QuartoBoard.java:377-386 | the number of empty cells lies in [0, 25] and is 0 exactly when the board is full |
| Rules.InsertCounts | QuartoServer.java:93 | a successful insertion into an empty cell fills one cell and puts one more piece in play, keeping the tally of pieces in play against filled cells |
| Rules.UnplacedPieceExists | QuartoServer.java:137 | on a tallied board that is not full some piece is not in play, so the piece fallback finds one |
| Rules.EmptyPositionFacts | QuartoBoard.java:10-24 | the starting position is coherent, tallied, has 25 empty cells and no winning line |
| Rules.WinThroughPlacement | QuartoSemiRandomAgent.java:52-54 | after a placement at (r, c) on a board without a winning line, the board has a winning line exactly when row r, column c or a diagonal wins, so the agents' local test is a whole-board test |
| Rules.FirstIdFrom | QuartoBoard.java:237-245 | the scan returns -1 or an id from `from` on that passes the test, and no id before it passes |
| Rules.FirstCellFrom | QuartoBoard.java:248-258 | the scan returns a cell passing the test, and no cell before it in row-major order passes |
| Rules.FirstUnplacedSpec | QuartoBoard.java:225-245 | chooseNextPieceNotPlayed(offset) is the least id from offset on that is not in play, and -1 exactly when all of them are in play |
| Rules.FirstUnplacedUnique | QuartoBoard.java:225-245 | any id with that description is the scan's result |
| Rules.FirstEmptyCellSpec | QuartoBoard.java:248-258 | chooseNextPositionNotPlayed is the first empty cell in row-major order, and (-1, -1) exactly when the board is full |
| Rules.FirstEmptyCellUnique | QuartoBoard.java:248-258 | any cell with that description is the scan's result |
| Rules.RandomUnplaced | QuartoBoard.java:262-277 | for every draw sequence: at most `attempts` draws are used; an id not in play is returned whenever one exists, -1 when none does; with 0 attempts it is chooseNextPieceNotPlayed() |
| Rules.RandomEmptyCell | QuartoBoard.java:280-297 | for every draw sequence: at most two draws per attempt; an empty in-range cell whenever the board is not full, (-1, -1) when it is; with 0 attempts it is chooseNextPositionNotPlayed() |
| Rules.WinsThroughIsWin | QuartoPlayerAgent.java:329-336 | isWin's test only reports real winning lines |
| Rules.FirstWinningCellSpec | QuartoSemiRandomAgent.java:101-118 | the search yields an empty cell where the piece wins on the spot with no such cell before it in row-major order, or nothing when no cell wins |
| Rules.FirstWinningCellUnique | QuartoSemiRandomAgent.java:101-118 | any cell with that description is the search's result |
| Rules.FirstSafePieceSpec | QuartoSemiRandomAgent.java:44-69 | the search yields the least piece not in play that cannot win on the spot, or -1 exactly when every piece not in play can |
| Rules.FirstSafePieceUnique | QuartoSemiRandomAgent.java:44-69 | any id with that description is the search's result |
| Rules.SemiRandomMove | QuartoSemiRandomAgent.java:97-125 | on a board that is not full the chosen cell is empty and on the board |
| Rules.SemiRandomMoveTakesWin | QuartoSemiRandomAgent.java:101-124 | when some cell wins on the spot the move is the first such cell and uses no draw; otherwise it is chooseRandomPositionNotPlayed(100) |
| Rules.SemiRandomPiece | QuartoSemiRandomAgent.java:40-90 | when some piece is not in play, the chosen piece is not in play |
| Rules.SemiRandomPieceIsSafe | QuartoSemiRandomAgent.java:44-89 | when some piece not in play cannot win on the spot, the least such piece is chosen and no draw is used; otherwise it is chooseRandomPieceNotPlayed(100) |
| Rules.Rotate | QuartoPlayerAgent.java:494-506 | a quarter turn of a grid is again a grid of piece ids |
| Rules.RotateFourTimes | QuartoPlayerAgent.java:507-519 | four quarter turns give back the grid, so the three boards of getRotatedBoards are the three other rotations |
| Rules.ReverseWins | QuartoPlayerAgent.java:494-506 | a line read backwards wins exactly when it wins |
| Rules.RotatedLines | QuartoPlayerAgent.java:494-506 | row i of the rotated grid is column i read backwards, column j is row 4 - j, its main diagonal is the anti-diagonal, and its anti-diagonal the main diagonal read backwards |
| Rules.RotatePreservesWin | QuartoPlayerAgent.java:494-506 | a rotated grid has a winning line exactly when the grid has one |
| Rules.RotatePreservesFull | QuartoPlayerAgent.java:494-506 | a rotated grid is full exactly when the grid is |
| Board.AddCharacteristics | QuartoBoard.java:128-131 | each counter k goes up by one exactly when the piece has characteristic k |
| Board.AnyCommon | QuartoBoard.java:136-142 | the result holds exactly when some counter is 0 or 5 |
| Board.CountersMeanWin | QuartoBoard.java:134-142 | counters that count the characteristics of a full line find a 0 or 5 exactly when the line wins |
| Board.QuartoBoard.constructor | QuartoBoard.java:10-24 | a fresh board with an empty grid and 32 fresh pieces 0..31, none in play, all at (-1, -1) |
| Board.QuartoBoard.Copy | QuartoBoard.java:27-43 | the copy has the same grid of ids, in-play flags and recorded positions, in a fresh grid, a fresh piece array and fresh pieces, so later inserts on the copy leave the original alone; each cell holds the copy's own piece |
| Board.QuartoBoard.CopyPieces | QuartoBoard.java:29-33 | every piece is copied into a fresh piece with the same id, flag and position |
| Board.QuartoBoard.CopyGrid | QuartoBoard.java:35-41 | every occupied cell of the original gets the copy's piece with the same id |
| Board.QuartoBoard.GetPiece | QuartoBoard.java:46-51 | null exactly for an id outside [0, 32); otherwise the piece with that id |
| Board.QuartoBoard.GetPieceOnPosition | QuartoBoard.java:54-62 | null exactly for a cell off the board or empty; otherwise the piece whose id the grid holds there |
| Board.QuartoBoard.InsertPieceOnBoard | QuartoBoard.java:65-79 | the result is the guard, and the new position is `Rules.Insert` of the old one; the class invariant is kept |
| Board.QuartoBoard.IsPieceOnBoard | QuartoBoard.java:86-92 | holds exactly when the id is in [0, 32) and that piece is in play |
| Board.QuartoBoard.IsSpaceTaken | QuartoBoard.java:95-101 | holds exactly when the cell is on the board and occupied |
| Board.QuartoBoard.TallyLine | QuartoBoard.java:120-132 | the walk is complete exactly when the five cells are full, and then counter k is the number of pieces with characteristic k |
| Board.QuartoBoard.CheckRow | QuartoBoard.java:118-144 | holds exactly when row r is on the board, full and its pieces share a characteristic |
| Board.QuartoBoard.CheckColumn | QuartoBoard.java:147-172 | holds exactly when column c is on the board, full and its pieces share a characteristic |
| Board.QuartoBoard.CheckDiagonals | QuartoBoard.java:175-222 | holds exactly when the main or the anti-diagonal wins; a gap in the first does not stop the check of the second |
| Board.QuartoBoard.ChooseNextPieceNotPlayed | QuartoBoard.java:225-233 | the least id not in play, -1 exactly when all are in play |
| Board.QuartoBoard.ChooseNextPieceNotPlayedFrom | QuartoBoard.java:237-245 | the least id from offset on that is not in play, else -1 |
| Board.QuartoBoard.ChooseNextPositionNotPlayed | QuartoBoard.java:248-258 | the first empty cell in row-major order, (-1, -1) exactly when the board is full |
| Board.QuartoBoard.ChooseRandomPieceNotPlayed | QuartoBoard.java:262-277 | the recursion on the attempt count computes `Rules.RandomUnplaced` for every draw sequence |
| Board.QuartoBoard.ChooseRandomPositionNotPlayed | QuartoBoard.java:280-297 | the recursion computes `Rules.RandomEmptyCell` for every draw sequence |
| Board.QuartoBoard.CheckIfBoardIsFull | QuartoBoard.java:377-386 | holds exactly when no cell is empty |
| Server.GameOverLines | QuartoServer.java:7-21 | a line written by the server starts with "GAME_OVER: " exactly when it announces a win or a draw |
| Server.Mover | QuartoServer.java:59 | the player placing in a turn is 1 or 2 |
| Server.MoverAlternates | QuartoServer.java:100-102 | consecutive turns have different placing players, player 1 in odd turns |
| Server.ReadPiece | QuartoServer.java:125-129 | a null reply is an error, and a parsed piece is an `int` |
| Server.ReadMove | QuartoServer.java:154-159 | a null reply is an error, and a parsed move is a pair of `int`s (fields after the second are ignored) |
| Server.ReadPieceName | QuartoServer.java:129 | the binary name of a game id reads back as that id |
| Server.ReadMoveJavaSplit | QuartoServer.java:157-159 | reading fields 0 and 1 of Java's `String.split` gives the same move or error as `ReadMove`, which reads the fields of `Split` |
| Server.ReadMoveText | QuartoServer.java:157-159 | the text "r,c" of a cell reads back as that cell |
| Server.PieceChoice | QuartoServer.java:123-139 | an accepted reply is the parsed piece and uses no draw; any other reply gives chooseRandomPieceNotPlayed(100); when a piece is out of play the result is one |
| Server.MoveChoice | QuartoServer.java:153-169 | an accepted reply is the parsed cell and uses no draw; any other reply gives chooseRandomPositionNotPlayed(100); on a board that is not full the result is an empty cell |
| Server.PieceChoiceAcceptsName | QuartoServer.java:129-134 | a reply naming a piece out of play is accepted as that piece |
| Server.PieceChoiceRejectsPlaced | QuartoServer.java:129-131 | a reply naming a piece in play is rejected |
| Server.MoveChoiceAcceptsText | QuartoServer.java:157-164 | a reply naming an empty cell is accepted as that cell |
| Server.MoveChoiceRejectsTaken | QuartoServer.java:161-162 | a reply naming an occupied or off-board cell is rejected |
| Server.GameServer.constructor | GameServer.java:15-17 | an empty log, nothing polled, the given replies |
| Server.GameServer.WriteToPlayer | GameServer.java:71-93 | exactly one message to that player is appended |
| Server.GameServer.WriteToAllPlayers | GameServer.java:94-113 | exactly one message to all is appended |
| Server.GameServer.ListenToPlayer | GameServer.java:114-136 | returns the next reply of the oracle and writes nothing |
| Server.QuartoServer.constructor | QuartoServer.java:50-53 | a fresh 5x5 board with 32 pieces in the starting position |
| Server.QuartoServer.IsValidPiece | QuartoServer.java:175-182 | holds exactly when 0 <= id < 32 and the piece is not in play |
| Server.QuartoServer.IsValidMove | QuartoServer.java:184-191 | holds exactly when the cell is on the board and empty |
| Server.QuartoServer.Tell | QuartoServer.java:134 | one message to the player is logged; the board is untouched |
| Server.QuartoServer.Broadcast | QuartoServer.java:96 | one message to both players is logged; nothing is read; the board is untouched |
| Server.QuartoServer.Ask | QuartoServer.java:119-121 | the request is logged, the next reply is returned, the board is untouched |
| Server.QuartoServer.ResolvePiece | QuartoServer.java:123-139 | the try/catch computes `PieceChoice` and advances the draw cursor |
| Server.QuartoServer.ChoosePiece | QuartoServer.java:115-145 | player two gets the Q1 request and then ACK_PIECE or ERR_PIECE with the chosen piece's name; the piece is out of play; the board is untouched |
| Server.QuartoServer.ResolveMove | QuartoServer.java:153-169 | the try/catch computes `MoveChoice` and advances the draw cursor |
| Server.QuartoServer.ChooseMove | QuartoServer.java:147-173 | player one gets the Q2 request and then ACK_MOVE or ERR_MOVE with the cell, and player two gets MOVE with it; the board is untouched |
| Server.QuartoServer.CheckIfGameIsWon | QuartoServer.java:194-222 | holds exactly when some row, column or diagonal wins |
| Server.QuartoServer.CheckIfGameIsDraw | QuartoServer.java:225-227 | holds exactly when the board is full |
| Server.QuartoServer.ChooseTurn | QuartoServer.java:78-90 | on a tallied board that is not full, the turn's piece is out of play and its cell empty, with five non-final messages logged |
| Server.QuartoServer.PlaceTurn | QuartoServer.java:93-95 | the insertion succeeds, keeps the board coherent and tallied, keeps every placed piece and fills one cell; the win check sees the new board |
| Server.QuartoServer.PlayTurn | QuartoServer.java:78-95 | one turn: one more piece on an empty cell, nothing placed moves, five non-final messages |
| Server.QuartoServer.PlayRound | QuartoServer.java:78-109 | after a win the GAME_OVER line names the player who placed; otherwise the roles swap, and on a full board the draw line ends the game |
| Server.QuartoServer.PlayTrackedRound | QuartoServer.java:63-111 | one loop pass keeps the loop invariant (one piece per turn, turns alternate, a quiet log) or finishes the game record |
| Server.QuartoServer.Play | QuartoServer.java:56-113 | the loop plays as many turns as it fills cells, keeps every placed piece and leaves a coherent board. The log is the time-limit line, five non-final messages per turn and exactly one GAME_OVER line at the end: a win for the player of the last turn (player 1 after an odd number of turns) when the final board has a winning line, otherwise a draw on a full board |
| SemiRandomAgent.WinsOnCopy | QuartoSemiRandomAgent.java:107-111 | placing on a copy and testing the cell's lines reports `WinsAfterInsert`; the board is untouched |
| SemiRandomAgent.TrialCopy | QuartoSemiRandomAgent.java:107-109 | the copy holds the board after the insertion; the board is untouched |
| SemiRandomAgent.CanWinOnBoard | QuartoSemiRandomAgent.java:49-64 | the skip flag is set exactly when the piece can win on the spot |
| SemiRandomAgent.FirstSafeOnBoard | QuartoSemiRandomAgent.java:46-81 | the loop finds the least piece out of play that cannot win on the spot, or -1 |
| SemiRandomAgent.FirstWinningOnBoard | QuartoSemiRandomAgent.java:101-118 | the loops find the first cell where the piece wins on the spot |
| SemiRandomAgent.QuartoSemiRandomAgent.constructor | QuartoSemiRandomAgent.java:4-7 | the agent holds the given board and draws |
| SemiRandomAgent.QuartoSemiRandomAgent.PieceSelectionAlgorithm | QuartoSemiRandomAgent.java:40-90 | the reply is the binary name of `SemiRandomPiece`; the board is untouched |
| SemiRandomAgent.QuartoSemiRandomAgent.MoveSelectionAlgorithm | QuartoSemiRandomAgent.java:97-125 | the reply is "r,c" of `SemiRandomMove`; the board is untouched |
| SemiRandomAgent.QuartoSemiRandomAgent.CheckIfGameIsWon | QuartoSemiRandomAgent.java:130-158 | holds exactly when some row, column or diagonal wins |
| SemiRandomAgent.CheckLines | QuartoSemiRandomAgent.java:133-157 | the row loop, the column loop and the diagonal check find a winning line exactly when there is one |
| SemiRandomAgent.ServerAcceptsMove | QuartoSemiRandomAgent.java:97-125 | on a board that is not full the referee accepts the agent's move text as that cell, using none of its own draws |
| SemiRandomAgent.ServerAcceptsPiece | QuartoSemiRandomAgent.java:40-90 | while a piece is out of play the referee accepts the agent's piece name as that piece |
| Playout.RemoveFirst | QuartoPlayerAgent.java:124 | `ArrayList.remove(Object)`: nothing changes when the action is absent; otherwise one occurrence goes |
| Playout.RemoveFirstSplits | QuartoPlayerAgent.java:124 | exactly the first occurrence is removed, the rest keeps its order |
| Playout.UnplacedBelow | QuartoPlayerAgent.java:461-467 | the list holds ids below n that are not in play |
| Playout.UnplacedBelowSpec | QuartoPlayerAgent.java:457-469 | getPossiblePieces holds exactly the ids not in play, in ascending order, one per piece out of play |
| Playout.PieceActionsNameUnplaced | QuartoPlayerAgent.java:141-154 | every action of a piece-selection node names a piece out of play (or is "00000" on an empty board) |
| Playout.PieceActionsCover | QuartoPlayerAgent.java:146-153 | with all 32 pieces out of play the actions are just "00000"; otherwise they are the binary names of getPossiblePieces, in order |
| Playout.EmptyCellsSpec | QuartoPlayerAgent.java:165 | the move list holds exactly the empty cells, in row-major order, one per empty cell |
| Playout.MoveActionsNameEmptyCells | QuartoPlayerAgent.java:162-175 | every action of a move-selection node is the text of an empty cell (or "2,2" on an empty board) |
| Playout.MoveActionsCover | QuartoPlayerAgent.java:167-174 | with all 25 cells empty the actions are just "2,2"; otherwise they are the texts of the empty cells, in order |
| Playout.PlayStepProgress | QuartoPlayerAgent.java:357-374 | a pass that does not end the game fills one cell (none if the piece could not be placed) and hands on a placeable piece |
| Playout.PlayStepFacts | QuartoPlayerAgent.java:357-374 | a pass keeps placed pieces and coherence; a final pass scores 1, 0 or -1, with 0 only on a full board and 1 exactly on a win with `player1` set |
| Playout.PlayoutOutcome | QuartoPlayerAgent.java:353-375 | the score is 1, 0 or -1; 0 only on a full final board, and a nonzero score only with a winning line; from a board without a winning line the score is 0 exactly when the final board has none; placed pieces stay and coherence is kept |
| Playout.PlayoutWinner | QuartoPlayerAgent.java:364-366 | a nonzero score is 1 exactly when the winning placement came in a round where the flag, flipped every round, is set |
| Playout.PlayoutRoundsBound | QuartoPlayerAgent.java:357-374 | the playout loop runs at least once and at most as often as there are empty cells, plus one when the first piece cannot be placed or the board is full |
| PlayerAgent.CopyOf | QuartoPlayerAgent.java:422 | a fresh deep copy with the same position; the original is untouched |
| PlayerAgent.RandomMove | QuartoPlayerAgent.java:419-426 | `RandomEmptyCell` with 100 attempts, drawn on a copy; the board is untouched |
| PlayerAgent.RandomPieceSelection | QuartoPlayerAgent.java:376-379 | `RandomUnplaced` with 100 attempts, drawn on a copy; the board is untouched |
| PlayerAgent.IsWin | QuartoPlayerAgent.java:329-336 | holds exactly when row r, column c or a diagonal wins |
| PlayerAgent.PlayRound | QuartoPlayerAgent.java:359-373 | one pass of the loop computes `Playout.PlayStep`: the new board, whether it ended, the score, the next piece and the draw cursor |
| PlayerAgent.CloseRound | QuartoPlayerAgent.java:362-371 | the pass ends exactly on a win through the cell or a full board, scoring +1/-1 by `player1` or 0; otherwise the next piece is drawn |
| PlayerAgent.PlayGame | QuartoPlayerAgent.java:353-375 | the loop terminates and its score, draw cursor and final board are those of `Playout.Playout` |
| PlayerAgent.DefaultPolicy | QuartoPlayerAgent.java:340-352 | with a piece, the score and draw cursor of the playout from it with `player1` set; without, a random piece first and then the playout with it unset |
| PlayerAgent.GetPossiblePieces | QuartoPlayerAgent.java:457-469 | the list is `UnplacedIds`: the ids out of play, ascending |
| PlayerAgent.PossibleMoves | QuartoPlayerAgent.java:165 | the list is `EmptyCells`: the empty cells in row-major order |
| PlayerAgent.ParsePiece | QuartoPlayerAgent.java:318-320 | the parsed piece is an `int` |
| PlayerAgent.ParsePieceName | QuartoPlayerAgent.java:318-320 | the binary name of a game id parses back to it |
| PlayerAgent.ParseMove | QuartoPlayerAgent.java:321-328 | the parsed cell is a pair of `int`s |
| PlayerAgent.ParseMoveText | QuartoPlayerAgent.java:321-328 | the text "r,c" of a cell parses back to it |
| PlayerAgent.Node.SelectPiece | QuartoPlayerAgent.java:141-154 | a blank node whose remaining actions are `PieceActions` of its board |
| PlayerAgent.Node.SelectMove | QuartoPlayerAgent.java:162-175 | a blank node whose remaining actions are `MoveActions` of its board |
| PlayerAgent.Node.Terminating | QuartoPlayerAgent.java:185-188 | a blank node with its value and no actions |
| PlayerAgent.Node.BaseAddChild | QuartoPlayerAgent.java:118-125 | the child is appended and gets the action, this parent and the parent's flag; the first occurrence of the action leaves the list; nothing else changes |
| PlayerAgent.Node.AddChild | QuartoPlayerAgent.java:155-158 | the same, except that under a piece-selection node the child's flag is the negation of the parent's |
| PlayerAgent.MoveChildKindMeans | QuartoPlayerAgent.java:279-288 | a leaf valued 1 has a winning line, one valued 0 is full with no win through the cell, and a new piece-selection node on a tallied board has an action |
| PlayerAgent.MoveChild | QuartoPlayerAgent.java:274-288 | the child holds a copy with the piece inserted, and its kind and actions follow the win and full tests |
| PlayerAgent.NewMoveChild | QuartoPlayerAgent.java:279-288 | as written: a win gives a leaf valued 1 whatever the flag, else a full board a leaf valued 0, else a piece-selection node |
| PlayerAgent.MoveChildIgnoresPlayer | QuartoPlayerAgent.java:281-283 | as written, the child of a winning move is the same whatever the flag: it matches the intended kind for `player` false and differs from it for `player` true |
| PlayerAgent.IntendedMoveChildKindMeans | QuartoPlayerAgent.java:279-288 | with the evident `else`, a winning leaf is valued -1 exactly when `node.player` holds and 1 otherwise, so the two flags give opposite values; a leaf valued 0 is full with no win through the cell |
| PlayerAgent.NewMoveChildCorrected | QuartoPlayerAgent.java:279-288 | the corrected move branch makes a blank child of the intended kind |
| PlayerAgent.Expand | QuartoPlayerAgent.java:257-293 | the first remaining action is consumed (the rest stays in order) and becomes the new child, appended; a piece action gives a move-selection node on the same board with the flag negated, a move action the child of `MoveChild`; the child has zero counts and no children; the node's visit count, score, action, parent and flag stay as they were |
| PlayerAgent.SemiRandomMove | QuartoPlayerAgent.java:432-456 | the move is `Rules.SemiRandomMove` |
| PlayerAgent.SemiRandomPieceSelection | QuartoPlayerAgent.java:380-418 | the piece is `Rules.SemiRandomPiece` |
| PlayerAgent.AreEqualPieces | QuartoPlayerAgent.java:484-493 | true exactly when both cells are empty or both hold the same id, so it is an equivalence |
| PlayerAgent.AreEqualBoards | QuartoPlayerAgent.java:470-483 | true exactly when the two grids hold the same ids, so it is reflexive and symmetric |
| PlayerAgent.RotateBoard | QuartoPlayerAgent.java:494-506 | a fresh board whose grid is the quarter turn of the grid, with the same in-play flags and recorded rows and columns |
| PlayerAgent.TurnCells | QuartoPlayerAgent.java:498-504 | after the loops cell (i, 4 - j) of the copy is cell (j, i) of the board |
| PlayerAgent.GetRotatedBoards | QuartoPlayerAgent.java:507-519 | three boards, each the quarter turn of the one before, a fourth turn giving back the board, each with a winning line exactly when the board has one |
| PlayerAgent.ArgmaxAsWritten | QuartoPlayerAgent.java:297-317 | as written, always the first child |
| PlayerAgent.ArgmaxAsWrittenMissesMaximum | QuartoPlayerAgent.java:306 | for scores [0.0, 1.0] the first child is not the maximum, the second is |
| PlayerAgent.Argmax | QuartoPlayerAgent.java:297-317 | the first child of maximal score |
| PlayerAgent.QuartoPlayerAgent.constructor | QuartoPlayerAgent.java:6-9 | the agent holds the given board |
| PlayerAgent.QuartoPlayerAgent.ChceckIfGameIsWon | QuartoPlayerAgent.java:47-73 | holds exactly when some row, column or diagonal wins |

## Left out

- GameServer.java and GameClient.java sockets, timeouts and line I/O: a reply is an `Option<string>` from an oracle, and a write is an append to a log.
- Server.GameServer.WriteToPlayer, Server.GameServer.ListenToPlayer: the invalid-player branch is not modelled. For a number outside 1..getNumberOfPlayers() Java writes nothing and returns false, or returns "error" without reading (GameServer.java:73, 85-87, 116, 130-133). The model logs the message or returns the next reply for every number. The referee only passes 1 and 2 (`Server.Mover` and 3 - `Server.Mover`), so its behaviour is unaffected.
- The boolean results of `writeToPlayer` and `writeToAllPlayers`, which report socket failures, are left out with the sockets; the referee ignores them.
- Java.Split: it keeps trailing empty fields, which Java's `String.split` drops (`","` splits into `["", ""]` rather than no field, `"1,"` into `["1", ""]` rather than `["1"]`). `Java.JavaSplit` is Java's version. `Server.ReadMoveJavaSplit` proves that reading a move gives the same result with either, because a removed field would be empty and fail to parse, just as a missing one is an error.
- `QuartoBoard.setBoardFromFile` and `printBoardState`: file reading, `System.exit` and console output. Boards start empty.
- `System.out.println` calls in the win checks: console output.
- General board dimensions: the program fixes 5x5 and 32 pieces (QuartoServer.java:3-5).
- The `main` methods, the server's endless loop of games, and QuartoAgent.java (the client's `play()`, the timers, `timeLimitForResponse`): QuartoAgent.java is not part of this model.
- `UCTSearch` and `treePolicy`: they loop on the wall clock.
- `bestChild`, `evaluate` and `backup`: the UCB1 score is `double` arithmetic with `Math.log` / `Math.sqrt`. `argmax` takes the scores as abstract reals.
- `printTree`: it is not defined in the source.
- `TerminatingNode.getValue`: it calls itself forever. The value is kept in the node's kind instead.
- `TerminatingNode.addChild`: it exits the process.
- Node getters and setters: they only read or write a field.
- `SelectMoveNode.setAction`: the search root is left out with `UCTSearch`.
- The `symmetry` branches: the two-argument `SelectMoveNode` constructor does not exist, and as written `expand`'s piece branch builds the same child either way.
- The timer no-op of `pieceSelectionAlgorithm` and its commented-out missed-message check.
- Floating-point rounding of `Math.random() * n`: it is the exact floor of a real.
- PlayerAgent.Node.SelectMove, PlayerAgent.PossibleMoves: the source calls an undefined two-argument `getPossiblePieces(board, piece)` (line 165). They model its evident intent, the empty cells in row-major order.
- PlayerAgent.ParseMove: as written it is declared to return `int` and reuses the name `move`. It models the evident intent, returning the two parsed coordinates.
- PlayerAgent.RandomMove, PlayerAgent.SemiRandomMove: they call `chooseRandomPositionNotPlayed`, the evident intent of the misspelled `chooseRandomPosistionNotPlayed`.
- PlayerAgent.RandomPieceSelection: it models both identical copies of `randomPieceSelection` (lines 376 and 427).
- Java.ParseInt: only ASCII digits are read. Java also accepts other Unicode decimal digits, which no client of this code sends.
- Board.QuartoBoard.ChooseNextPieceNotPlayedFrom: requires offset >= 0. With a negative offset Java dereferences a null piece and throws.
- Server.QuartoServer.ChoosePiece: requires some piece out of play. Otherwise the fallback returns -1 and Java throws on `getPiece(-1)`.
- Server.QuartoServer.Play: requires a coherent, tallied board that is not full, which the constructor's board is. A full board can only come from a state file.
- PlayerAgent.PlayGame, PlayerAgent.DefaultPolicy: require a tallied board, one where the pieces in play match the filled cells, as every board built by insertions into empty cells is, which is how the referee and the agents insert. An insertion onto an occupied cell puts one more piece in play without filling a cell, so it breaks the tally. The requirement bounds the loop.
- PlayerAgent.DefaultPolicy: its `player1` argument is unused, as in the source.
- PlayerAgent.ArgmaxAsWritten, PlayerAgent.Argmax: require at least one child. Java's `children.get(0)` throws on an empty list.
- PlayerAgent.Expand: requires, for a move-selection node, a node action and a first remaining action that parse. A node made by `expand` or by the search root always satisfies this. A node without them makes Java throw.
- The ghost `Position` parameters and the draw cursor `at` / `next` are bookkeeping of the model, with no counterpart in the source.

## Findings

| source | as written | input that shows it | evidently intended | confidence | as-written member | corrected member |
|---|---|---|---|---|---|---|
| QuartoPlayerAgent.java:306 | `argmax` reads `children.get(0)` on every turn of its loop, so it always returns the first child | two children with scores [0.0, 1.0]: the first is returned though the second scores higher | `children.get(i)`: return the first child of maximal score | high (not executed) | PlayerAgent.ArgmaxAsWritten, PlayerAgent.ArgmaxAsWrittenMissesMaximum | PlayerAgent.Argmax |
| QuartoPlayerAgent.java:281-283 | `if(node.player)` sets the child to a leaf valued -1, and the next line overwrites it unconditionally with a leaf valued 1 (no `else`) | a winning placement expanded from a node whose `player` flag is true: the leaf is valued 1 | `else`: value -1 when `node.player` holds, 1 otherwise | high (not executed) | PlayerAgent.NewMoveChild, PlayerAgent.MoveChildIgnoresPlayer | PlayerAgent.NewMoveChildCorrected, PlayerAgent.IntendedMoveChildKindMeans |
