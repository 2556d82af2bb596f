/**
 * QuartoSemiRandomAgent.java: the example client. It hands over the least
 * piece the opponent cannot win with on the spot and places its piece on the
 * first cell where it wins on the spot; when there is none it picks at
 * random. Every trial placement is made on a copy of the agent's board.
 */
module SemiRandomAgent {
  import opened Java
  import opened Rules
  import opened Board
  import Server

  /**
   * The trial placement of both agents: insertPieceOnBoard(row, column, id)
   * on a new QuartoBoard(board), then checkRow(row) || checkColumn(column) ||
   * checkDiagonals() on the copy. The board itself is not touched.
   */
  method WinsOnCopy(board: QuartoBoard, ghost p: Position, row: int, column: int, pieceID: int) returns (wins: bool)
    requires board.Valid() && board.Position() == p
    ensures board.Valid() && board.Position() == p
    ensures wins == WinsAfterInsert(p, row, column, pieceID)
  {
    var copyBoard := TrialCopy(board, p, row, column, pieceID);
    wins := copyBoard.CheckRow(row);
    if !wins {
      wins := copyBoard.CheckColumn(column);
    }
    if !wins {
      wins := copyBoard.CheckDiagonals();
    }
  }

  /** new QuartoBoard(board) and insertPieceOnBoard(row, column, id) on the copy. */
  method TrialCopy(board: QuartoBoard, ghost p: Position, row: int, column: int, pieceID: int) returns (copyBoard: QuartoBoard)
    requires board.Valid() && board.Position() == p
    ensures board.Valid() && board.Position() == p
    ensures copyBoard.Valid() && copyBoard.Grid() == Insert(p, row, column, pieceID).grid
  {
    copyBoard := new QuartoBoard.Copy(board);
    var inserted := copyBoard.InsertPieceOnBoard(row, column, pieceID);
  }

  /**
   * The row and column loops of pieceSelectionAlgorithm (the same loops are
   * in semiRandomPieceSelection): skip is set, and both loops are left, at
   * the first empty cell where the piece wins on the spot.
   */
  method CanWinOnBoard(board: QuartoBoard, pieceID: int) returns (skip: bool)
    requires board.Valid()
    ensures skip == CanWinImmediately(board.Position(), pieceID)
  {
    ghost var p := board.Position();
    skip := false;
    for row := 0 to Size
      invariant !skip
      invariant forall r, c :: InRange(r, c) && r < row ==> !ImmediateWin(p, r, c, pieceID)
    {
      for col := 0 to Size
        invariant !skip
        invariant forall r, c :: InRange(r, c) && (r < row || (r == row && c < col)) ==> !ImmediateWin(p, r, c, pieceID)
      {
        var taken := board.IsSpaceTaken(row, col);
        if !taken {
          var wins := WinsOnCopy(board, p, row, col, pieceID);
          if wins {
            assert ImmediateWin(p, row, col, pieceID);
            skip := true;
            break;
          }
        }
      }
      if skip {
        break;
      }
    }
  }

  /**
   * The piece loop of pieceSelectionAlgorithm (and of semiRandomPieceSelection):
   * the least piece not on the board that cannot win on the spot, or -1.
   */
  method FirstSafeOnBoard(board: QuartoBoard, ghost p: Position) returns (id: int)
    requires board.Valid() && board.Position() == p
    ensures board.Valid() && board.Position() == p
    ensures id == FirstSafePiece(p)
  {
    for i := 0 to PieceCount
      invariant board.Valid() && board.Position() == p
      invariant forall j :: 0 <= j < i && !p.inPlay[j] ==> CanWinImmediately(p, j)
    {
      var onBoard := board.IsPieceOnBoard(i);
      if !onBoard {
        var skip := CanWinOnBoard(board, i);
        if !skip {
          FirstSafePieceUnique(p, i);
          return i;
        }
      }
    }
    FirstSafePieceUnique(p, -1);
    id := -1;
  }

  /**
   * The cell loops of moveSelectionAlgorithm: the first empty cell in
   * row-major order where the piece wins on the spot, if any.
   */
  method FirstWinningOnBoard(board: QuartoBoard, ghost p: Position, pieceID: int) returns (found: Option<Cell>)
    requires board.Valid() && board.Position() == p
    ensures board.Valid() && board.Position() == p
    ensures found == FirstWinningCell(p, pieceID)
  {
    for rows := 0 to Size
      invariant board.Valid() && board.Position() == p
      invariant forall r, c :: InRange(r, c) && r < rows ==> !ImmediateWin(p, r, c, pieceID)
    {
      for columns := 0 to Size
        invariant board.Valid() && board.Position() == p
        invariant forall r, c :: InRange(r, c) && (r < rows || (r == rows && c < columns)) ==>
          !ImmediateWin(p, r, c, pieceID)
      {
        var piece := board.GetPieceOnPosition(rows, columns);
        if piece == null {
          var wins := WinsOnCopy(board, p, rows, columns, pieceID);
          if wins {
            FirstWinningCellUnique(p, pieceID, Some((rows, columns)));
            return Some((rows, columns));
          }
        }
      }
    }
    FirstWinningCellUnique(p, pieceID, None);
    found := None;
  }

  class QuartoSemiRandomAgent {
    /** The agent's picture of the game, kept up to date by QuartoAgent (not part of this model). */
    const quartoBoard: QuartoBoard
    /** The results of Math.random(), in order. */
    const draws: Draws

    constructor (quartoBoard: QuartoBoard, draws: Draws)
      ensures this.quartoBoard == quartoBoard && this.draws == draws
    {
      this.quartoBoard := quartoBoard;
      this.draws := draws;
    }

    /**
     * pieceSelectionAlgorithm, with the draws from number at on: the binary
     * name of the least piece not on the board that cannot win on the spot,
     * else of chooseRandomPieceNotPlayed(100).
     */
    method PieceSelectionAlgorithm(at: nat) returns (name: string, next: nat)
      requires quartoBoard.Valid()
      ensures IsInt(SemiRandomPiece(quartoBoard.Position(), draws, at).0)
      ensures name == BinaryName(SemiRandomPiece(quartoBoard.Position(), draws, at).0)
      ensures next == SemiRandomPiece(quartoBoard.Position(), draws, at).1
    {
      ghost var p := quartoBoard.Position();
      var safe := FirstSafeOnBoard(quartoBoard, p);
      if safe != -1 {
        assert SemiRandomPiece(p, draws, at) == (safe, at);
        return BinaryName(safe), at;
      }
      var pieceId;
      pieceId, next := quartoBoard.ChooseRandomPieceNotPlayed(FallbackAttempts, draws, at);
      assert quartoBoard.Position() == p;
      assert SemiRandomPiece(p, draws, at) == RandomUnplaced(p.inPlay, draws, at, FallbackAttempts);
      name := BinaryName(pieceId);
    }

    /**
     * moveSelectionAlgorithm, with the draws from number at on: "row,column"
     * of the first empty cell in row-major order where the piece wins on the
     * spot, else of chooseRandomPositionNotPlayed(100) on a copy.
     */
    method MoveSelectionAlgorithm(pieceID: int, at: nat) returns (move: string, next: nat)
      requires quartoBoard.Valid()
      ensures move == Server.CellText(SemiRandomMove(quartoBoard.Position(), pieceID, draws, at).0)
      ensures next == SemiRandomMove(quartoBoard.Position(), pieceID, draws, at).1
    {
      ghost var p := quartoBoard.Position();
      var found := FirstWinningOnBoard(quartoBoard, p, pieceID);
      if found.Some? {
        assert SemiRandomMove(p, pieceID, draws, at) == (found.value, at);
        return Server.CellText(found.value), at;
      }
      var copyBoard := new QuartoBoard.Copy(quartoBoard);
      var cell;
      cell, next := copyBoard.ChooseRandomPositionNotPlayed(FallbackAttempts, draws, at);
      assert quartoBoard.Position() == p;
      assert SemiRandomMove(p, pieceID, draws, at) == RandomEmptyCell(p.grid, draws, at, FallbackAttempts);
      move := Server.CellText(cell);
    }

    /** checkIfGameIsWon: every row, then every column, then the diagonals of the agent's board. */
    method CheckIfGameIsWon() returns (won: bool)
      requires quartoBoard.Valid()
      ensures won == HasWinningLine(quartoBoard.Grid())
    {
      won := CheckLines(quartoBoard);
    }
  }

  /**
   * The loops of checkIfGameIsWon (and of chceckIfGameIsWon in
   * QuartoPlayerAgent.java): checkRow for every row, then checkColumn for
   * every column, then checkDiagonals, stopping at the first that holds.
   */
  method CheckLines(board: QuartoBoard) returns (won: bool)
    requires board.Valid()
    ensures won == HasWinningLine(board.Grid())
  {
    for i := 0 to Size
      invariant forall r :: 0 <= r < i ==> !RowWins(board.Grid(), r)
    {
      var rowWins := board.CheckRow(i);
      if rowWins {
        return true;
      }
    }
    for i := 0 to Size
      invariant forall r :: 0 <= r < Size ==> !RowWins(board.Grid(), r)
      invariant forall c :: 0 <= c < i ==> !ColumnWins(board.Grid(), c)
    {
      var columnWins := board.CheckColumn(i);
      if columnWins {
        return true;
      }
    }
    won := board.CheckDiagonals();
  }

  /** The server accepts the agent's move reply, on a board that is not full, as the cell chosen. */
  lemma ServerAcceptsMove(p: Position, pieceID: int, draws: Draws, at: nat, serverDraws: Draws, serverAt: nat)
    requires IsPosition(p) && !IsFull(p.grid)
    ensures var (cell, _) := SemiRandomMove(p, pieceID, draws, at);
      var choice := Server.MoveChoice(p.grid, Some(Server.CellText(cell)), serverDraws, serverAt);
      choice.accepted && choice.value == cell && choice.next == serverAt
  {
    var (cell, _) := SemiRandomMove(p, pieceID, draws, at);
    Server.ReadMoveText(cell);
  }

  /** The server accepts the agent's piece reply, while a piece is left, as the piece chosen. */
  lemma ServerAcceptsPiece(p: Position, draws: Draws, at: nat, serverDraws: Draws, serverAt: nat)
    requires IsPosition(p) && exists i :: IsId(i) && !p.inPlay[i]
    ensures var (pieceID, _) := SemiRandomPiece(p, draws, at);
      var choice := Server.PieceChoice(p.inPlay, Some(BinaryName(pieceID)), serverDraws, serverAt);
      choice.accepted && choice.value == pieceID && choice.next == serverAt
  {
    var (pieceID, _) := SemiRandomPiece(p, draws, at);
    Server.ReadPieceName(pieceID);
  }
}
