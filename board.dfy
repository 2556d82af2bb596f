/**
 * QuartoBoard.java: a 5x5 grid of piece references and the array of the 32
 * pieces. Every operation is proved against the value model of Rules: the
 * grid of ids Grid(), the in-play flags InPlay() and the whole Position().
 */
module Board {
  import opened Java
  import opened Rules
  import opened Piece

  /**
   * The loop that adds a piece's characteristics to the commonCharacteristics
   * counters of checkRow, checkColumn and checkDiagonals.
   */
  method AddCharacteristics(common: array<int>, piece: QuartoPiece)
    requires common.Length == Traits && Sound(piece)
    modifies common
    ensures forall k :: 0 <= k < Traits ==>
      common[k] == old(common[k]) + (if Rules.Trait(piece.pieceID, k) then 1 else 0)
  {
    var characteristics := piece.characteristics;
    for i := 0 to common.Length
      invariant forall k :: 0 <= k < i ==>
        common[k] == old(common[k]) + (if Rules.Trait(piece.pieceID, k) then 1 else 0)
      invariant forall k :: i <= k < Traits ==> common[k] == old(common[k])
    {
      common[i] := common[i] + (if characteristics[i] then 1 else 0);
    }
  }

  /** The closing loop of the checks: some counter is 0 or 5. */
  method AnyCommon(common: array<int>) returns (found: bool)
    requires common.Length == Traits
    ensures found <==> exists k :: 0 <= k < Traits && (common[k] == 0 || common[k] == Size)
  {
    for i := 0 to common.Length
      invariant forall k :: 0 <= k < i ==> !(common[k] == 0 || common[k] == Size)
    {
      if common[i] == 0 || common[i] == Size {
        return true;
      }
    }
    return false;
  }

  /**
   * After a whole filled line the counters decide whether it wins: some
   * counter is 0 or 5 exactly when all five pieces share a characteristic.
   */
  lemma CountersMeanWin(line: Line, common: array<int>, found: bool)
    requires |line| == Size && Filled(line) && common.Length == Traits
    requires forall k :: 0 <= k < Traits ==> common[k] == CountTrait(line, k, Size)
    requires found <==> exists k :: 0 <= k < Traits && (common[k] == 0 || common[k] == Size)
    ensures found <==> LineWins(line)
  {
    forall k | 0 <= k < Traits {
      CountDecidesShare(line, k);
    }
    if found {
      var k :| 0 <= k < Traits && (common[k] == 0 || common[k] == Size);
      assert SharesTrait(line, k);
    }
  }

  /**
   * The piece's characteristics array holds, for each k, characteristic k of
   * its id; by TraitIsCharacteristic this is what a valid QuartoPiece holds.
   */
  ghost predicate Sound(piece: QuartoPiece)
    reads piece.characteristics
  {
    IsId(piece.pieceID) && piece.characteristics.Length == Traits &&
    forall k :: 0 <= k < Traits ==> piece.characteristics[k] == Rules.Trait(piece.pieceID, k)
  }

  lemma ValidPieceIsSound(piece: QuartoPiece)
    requires piece.Valid() && IsId(piece.pieceID)
    ensures Sound(piece)
  {
    forall k | 0 <= k < Traits ensures piece.characteristics[k] == Rules.Trait(piece.pieceID, k) {
      TraitIsCharacteristic(piece.pieceID, k);
      assert piece.characteristics[k] == piece.characteristics[..][k];
    }
  }

  class QuartoBoard {
    const board: array2<QuartoPiece?>
    const pieces: array<QuartoPiece?>

    /** The dimensions of the game: 5x5 cells and 32 pieces. */
    predicate Shaped() {
      board.Length0 == Size && board.Length1 == Size && pieces.Length == PieceCount
    }

    /** Every piece on the grid has an id of the game. */
    ghost predicate IdsOnGrid()
      reads board
    {
      forall r, c :: 0 <= r < board.Length0 && 0 <= c < board.Length1 && board[r, c] != null ==>
        IsId(board[r, c].pieceID)
    }

    /** The characteristics arrays of the pieces and of the pieces on the grid. */
    ghost function Arrays(): set<array<bool>>
      reads board, pieces
    {
      (set i | 0 <= i < pieces.Length && pieces[i] != null :: pieces[i].characteristics) +
      (set r, c | 0 <= r < board.Length0 && 0 <= c < board.Length1 && board[r, c] != null ::
        board[r, c].characteristics)
    }

    /**
     * The board is 5x5, pieces[i] is the piece with id i, and every cell holds
     * either nothing or a piece of the game with its characteristics.
     */
    ghost predicate Valid()
      reads board, pieces, pieces[..], Arrays()
    {
      Shaped() && IdsOnGrid() &&
      (forall i :: 0 <= i < PieceCount ==> pieces[i] != null && pieces[i].pieceID == i && Sound(pieces[i])) &&
      (forall r, c :: 0 <= r < Size && 0 <= c < Size && board[r, c] != null ==> Sound(board[r, c]))
    }

    /** Every occupied cell holds this board's own piece of that id. */
    ghost predicate Owned()
      reads board, pieces
    {
      forall r, c :: 0 <= r < board.Length0 && 0 <= c < board.Length1 && board[r, c] != null ==>
        0 <= board[r, c].pieceID < pieces.Length && board[r, c] == pieces[board[r, c].pieceID]
    }

    /** The ids on the grid. */
    ghost function Grid(): (g: Rules.Grid)
      requires Shaped() && IdsOnGrid()
      reads board
      ensures IsGrid(g)
    {
      seq(Size, r requires 0 <= r < Size reads board =>
        seq(Size, c requires 0 <= c < Size reads board =>
          if board[r, c] == null then None else Some(board[r, c].pieceID)))
    }

    ghost function InPlay(): (s: seq<bool>)
      requires Shaped()
      reads pieces, pieces[..]
      ensures |s| == PieceCount
    {
      seq(PieceCount, i requires 0 <= i < PieceCount reads pieces, pieces[..] => pieces[i] != null && pieces[i].inPlay)
    }

    ghost function PieceRows(): (s: seq<int>)
      requires Shaped()
      reads pieces, pieces[..]
      ensures |s| == PieceCount
    {
      seq(PieceCount, i requires 0 <= i < PieceCount reads pieces, pieces[..] => if pieces[i] != null then pieces[i].row else -1)
    }

    ghost function PieceColumns(): (s: seq<int>)
      requires Shaped()
      reads pieces, pieces[..]
      ensures |s| == PieceCount
    {
      seq(PieceCount, i requires 0 <= i < PieceCount reads pieces, pieces[..] => if pieces[i] != null then pieces[i].column else -1)
    }

    /** The board as a value. */
    ghost function Position(): (p: Rules.Position)
      requires Shaped() && IdsOnGrid()
      reads board, pieces, pieces[..]
      ensures IsPosition(p) && p.grid == Grid() && p.inPlay == InPlay()
    {
      Rules.Position(Grid(), InPlay(), PieceRows(), PieceColumns())
    }

    /**
     * The constructor for a 5x5 board with 32 pieces and no state file: an
     * empty grid and a fresh piece for every id.
     */
    constructor ()
      ensures Valid() && Owned() && Position() == EmptyPosition()
      ensures fresh(board) && fresh(pieces) && forall i :: 0 <= i < PieceCount ==> fresh(pieces[i])
    {
      board := new QuartoPiece?[Size, Size]((_, _) => null);
      pieces := new QuartoPiece?[PieceCount](_ => null);
      new;
      for i := 0 to PieceCount
        modifies pieces
        invariant forall j :: 0 <= j < i ==>
          pieces[j] != null && fresh(pieces[j]) &&
          pieces[j].pieceID == j && Sound(pieces[j]) &&
          !pieces[j].inPlay && pieces[j].row == -1 && pieces[j].column == -1
        invariant forall r, c :: 0 <= r < Size && 0 <= c < Size ==> board[r, c] == null
      {
        var piece := new QuartoPiece(i);
        ValidPieceIsSound(piece);
        pieces[i] := piece;
      }
      forall r | 0 <= r < Size ensures Grid()[r] == EmptyPosition().grid[r] {
        assert forall c :: 0 <= c < Size ==> Grid()[r][c] == None;
      }
      assert InPlay() == EmptyPosition().inPlay;
      assert PieceRows() == EmptyPosition().rows;
      assert PieceColumns() == EmptyPosition().columns;
    }

    /**
     * The copy constructor: a fresh piece for every piece of the original, and
     * the grid filled with this board's own pieces of the same ids.
     */
    constructor Copy(quartoBoard: QuartoBoard)
      requires quartoBoard.Valid()
      ensures Valid() && Owned() && Position() == quartoBoard.Position()
      ensures fresh(board) && fresh(pieces) && forall i :: 0 <= i < PieceCount ==> fresh(pieces[i])
    {
      board := new QuartoPiece?[Size, Size]((_, _) => null);
      pieces := new QuartoPiece?[PieceCount](_ => null);
      new;
      CopyPieces(quartoBoard.pieces);
      CopyGrid(quartoBoard.board);
      forall r | 0 <= r < Size ensures Grid()[r] == quartoBoard.Grid()[r] {
        assert forall c :: 0 <= c < Size ==> Grid()[r][c] == quartoBoard.Grid()[r][c];
      }
      assert InPlay() == quartoBoard.InPlay();
      assert PieceRows() == quartoBoard.PieceRows();
      assert PieceColumns() == quartoBoard.PieceColumns();
    }

    /**
     * The piece loop of the copy constructor: a fresh copy of every piece of
     * the original, with its in-play flag and position.
     */
    method CopyPieces(original: array<QuartoPiece?>)
      requires Shaped() && original.Length == PieceCount && original != pieces
      requires forall i :: 0 <= i < PieceCount ==> original[i] != null && original[i].pieceID == i
      modifies pieces
      ensures forall j :: 0 <= j < PieceCount ==>
        pieces[j] != null && fresh(pieces[j]) && pieces[j].pieceID == j && Sound(pieces[j]) &&
        pieces[j].inPlay == original[j].inPlay && pieces[j].row == original[j].row && pieces[j].column == original[j].column
    {
      for i := 0 to PieceCount
        invariant forall j :: 0 <= j < i ==>
          pieces[j] != null && fresh(pieces[j]) && pieces[j].pieceID == j && Sound(pieces[j]) &&
          pieces[j].inPlay == original[j].inPlay && pieces[j].row == original[j].row && pieces[j].column == original[j].column
      {
        var piece := new QuartoPiece.Copy(original[i]);
        ValidPieceIsSound(piece);
        pieces[i] := piece;
      }
    }

    /**
     * The grid loop of the copy constructor: each cell gets this board's own
     * piece with the id of the original's piece on that cell.
     */
    method CopyGrid(original: array2<QuartoPiece?>)
      requires Shaped() && original.Length0 == Size && original.Length1 == Size && original != board
      requires forall r, c :: 0 <= r < Size && 0 <= c < Size && original[r, c] != null ==> IsId(original[r, c].pieceID)
      requires forall r, c :: 0 <= r < Size && 0 <= c < Size ==> board[r, c] == null
      modifies board
      ensures forall r, c :: 0 <= r < Size && 0 <= c < Size ==>
        board[r, c] == (if original[r, c] == null || !IsId(original[r, c].pieceID) then null
                        else pieces[original[r, c].pieceID])
    {
      for row := 0 to Size
        invariant forall r, c :: 0 <= r < row && 0 <= c < Size ==>
          board[r, c] == (if original[r, c] == null then null else pieces[original[r, c].pieceID])
        invariant forall r, c :: row <= r < Size && 0 <= c < Size ==> board[r, c] == null
      {
        for col := 0 to Size
          invariant forall r, c :: 0 <= r < Size && 0 <= c < Size && (r < row || (r == row && c < col)) ==>
            board[r, c] == (if original[r, c] == null then null else pieces[original[r, c].pieceID])
          invariant forall r, c :: 0 <= r < Size && 0 <= c < Size && (r > row || (r == row && c >= col)) ==>
            board[r, c] == null
        {
          var piece := original[row, col];
          if piece != null {
            board[row, col] := pieces[piece.pieceID];
          }
        }
      }
    }

    /** getPiece: the piece with this id, or null when the id is out of range. */
    function GetPiece(pieceID: int): (piece: QuartoPiece?)
      requires Valid()
      reads board, pieces, pieces[..], Arrays()
      ensures piece == null <==> !IsId(pieceID)
      ensures piece != null ==> piece.pieceID == pieceID && Sound(piece)
    {
      if pieceID < 0 || pieceID >= pieces.Length then null else pieces[pieceID]
    }

    /** getPieceOnPosition: the piece on the cell, or null when the cell is empty or out of range. */
    function GetPieceOnPosition(row: int, column: int): (piece: QuartoPiece?)
      requires Valid()
      reads board, pieces, pieces[..], Arrays()
      ensures piece == null <==> !InRange(row, column) || Grid()[row][column].None?
      ensures piece != null ==> Grid()[row][column] == Some(piece.pieceID) && IsId(piece.pieceID) && Sound(piece)
      ensures piece != null && Owned() ==> piece == pieces[piece.pieceID]
    {
      if row < 0 || row >= board.Length0 || column < 0 || column >= board.Length1 then null
      else board[row, column]
    }

    /**
     * insertPieceOnBoard: when the cell is in range and the piece exists and
     * is not in play, the piece records the cell, is put in play and is
     * placed on the cell; otherwise nothing changes. An occupied cell is
     * overwritten.
     */
    method InsertPieceOnBoard(row: int, column: int, pieceID: int) returns (inserted: bool)
      requires Valid()
      modifies board, pieces[..]
      ensures Valid() && (old(Owned()) ==> Owned())
      ensures inserted == CanInsert(old(Position()), row, column, pieceID)
      ensures Position() == Insert(old(Position()), row, column, pieceID)
    {
      if row < 0 || row >= board.Length0 || column < 0 || column >= board.Length1 ||
         pieceID < 0 || pieceID >= pieces.Length || GetPiece(pieceID).inPlay {
        return false;
      }
      ghost var before := Position();
      var piece := GetPiece(pieceID);
      piece.SetPosition(row, column);
      board[row, column] := piece;
      forall r | 0 <= r < Size ensures Grid()[r] == Place(before.grid, row, column, pieceID)[r] {
        assert forall c :: 0 <= c < Size ==> Grid()[r][c] == Place(before.grid, row, column, pieceID)[r][c];
      }
      assert InPlay() == before.inPlay[pieceID := true];
      assert PieceRows() == before.rows[pieceID := row];
      assert PieceColumns() == before.columns[pieceID := column];
      return true;
    }

    /** isPieceOnBoard: the id names a piece and that piece is in play. */
    function IsPieceOnBoard(pieceID: int): (onBoard: bool)
      requires Valid()
      reads board, pieces, pieces[..], Arrays()
      ensures onBoard <==> IsId(pieceID) && InPlay()[pieceID]
    {
      var piece := GetPiece(pieceID);
      if piece == null then false else piece.inPlay
    }

    /** isSpaceTaken: the cell is in range and holds a piece. */
    function IsSpaceTaken(row: int, column: int): (taken: bool)
      requires Valid()
      reads board, pieces, pieces[..], Arrays()
      ensures taken <==> InRange(row, column) && Grid()[row][column].Some?
    {
      if row < 0 || row >= board.Length0 || column < 0 || column >= board.Length1 ||
         GetPieceOnPosition(row, column) == null then false
      else true
    }

    /**
     * The counting loop of checkRow, checkColumn and both halves of
     * checkDiagonals: walks the cells in order, stops at the first one that
     * holds no piece, and otherwise adds each piece's characteristics to the
     * commonCharacteristics counters.
     */
    method TallyLine(cells: seq<Cell>) returns (complete: bool, commonCharacteristics: array<int>)
      requires Valid() && |cells| == Size
      ensures fresh(commonCharacteristics) && commonCharacteristics.Length == Traits
      ensures complete <==> Filled(LineAt(Grid(), cells))
      ensures complete ==> forall k :: 0 <= k < Traits ==>
        commonCharacteristics[k] == CountTrait(LineAt(Grid(), cells), k, Size)
    {
      commonCharacteristics := new int[Traits](_ => 0);
      ghost var line := LineAt(Grid(), cells);
      for i := 0 to Size
        invariant Valid() && line == LineAt(Grid(), cells)
        invariant forall k :: 0 <= k < Traits ==> commonCharacteristics[k] == CountTrait(line, k, i)
        invariant forall j :: 0 <= j < i ==> line[j].Some?
      {
        var piece := GetPieceOnPosition(cells[i].0, cells[i].1);
        if piece == null {
          assert line[i].None?;
          return false, commonCharacteristics;
        }
        assert line[i] == Some(piece.pieceID);
        AddCharacteristics(commonCharacteristics, piece);
      }
      return true, commonCharacteristics;
    }

    /** checkRow: the row is a row of the board and its five pieces share a characteristic. */
    method CheckRow(row: int) returns (win: bool)
      requires Valid()
      ensures win == RowWins(Grid(), row)
    {
      RowCellsLine(Grid(), row);
      var complete, commonCharacteristics := TallyLine(RowCells(row));
      if !complete {
        return false;
      }
      win := AnyCommon(commonCharacteristics);
      CountersMeanWin(LineAt(Grid(), RowCells(row)), commonCharacteristics, win);
    }

    /** checkColumn: the column is a column of the board and its five pieces share a characteristic. */
    method CheckColumn(column: int) returns (win: bool)
      requires Valid()
      ensures win == ColumnWins(Grid(), column)
    {
      ColumnCellsLine(Grid(), column);
      var complete, commonCharacteristics := TallyLine(ColumnCells(column));
      if !complete {
        return false;
      }
      win := AnyCommon(commonCharacteristics);
      CountersMeanWin(LineAt(Grid(), ColumnCells(column)), commonCharacteristics, win);
    }

    /**
     * checkDiagonals: the diagonal (k, k) or the diagonal from (4, 0) up to
     * (0, 4) is filled with pieces that share a characteristic. The second
     * diagonal is looked at only when the first one does not win.
     */
    method CheckDiagonals() returns (win: bool)
      requires Valid()
      ensures win == DiagonalsWin(Grid())
    {
      DiagonalCellsLines(Grid());
      var unableToWinFirstDiagonal, commonCharacteristics := TallyLine(MainDiagonalCells());
      unableToWinFirstDiagonal := !unableToWinFirstDiagonal;
      if !unableToWinFirstDiagonal {
        win := AnyCommon(commonCharacteristics);
        CountersMeanWin(LineAt(Grid(), MainDiagonalCells()), commonCharacteristics, win);
        if win {
          return true;
        }
      }
      var complete;
      complete, commonCharacteristics := TallyLine(AntiDiagonalCells());
      if !complete {
        return false;
      }
      win := AnyCommon(commonCharacteristics);
      CountersMeanWin(LineAt(Grid(), AntiDiagonalCells()), commonCharacteristics, win);
    }

    /** chooseNextPieceNotPlayed(): the least id not in play, or -1. */
    method ChooseNextPieceNotPlayed() returns (pieceID: int)
      requires Valid()
      ensures pieceID == FirstUnplaced(InPlay(), 0)
    {
      pieceID := ChooseNextPieceNotPlayedFrom(0);
    }

    /**
     * chooseNextPieceNotPlayed(offset): the least id from offset on that is
     * not in play, or -1.
     */
    method ChooseNextPieceNotPlayedFrom(offset: int) returns (pieceID: int)
      requires Valid() && 0 <= offset
      ensures pieceID == FirstUnplaced(InPlay(), offset)
    {
      var i := offset;
      while i < pieces.Length
        invariant offset <= i
        invariant forall j :: offset <= j < i && j < PieceCount ==> InPlay()[j]
      {
        if !GetPiece(i).inPlay {
          FirstUnplacedUnique(InPlay(), offset, i);
          return i;
        }
        i := i + 1;
      }
      FirstUnplacedUnique(InPlay(), offset, -1);
      return -1;
    }

    /** chooseNextPositionNotPlayed: the first empty cell in row-major order, or (-1, -1). */
    method ChooseNextPositionNotPlayed() returns (move: Cell)
      requires Valid()
      ensures move == FirstEmptyCell(Grid())
    {
      for row := 0 to board.Length0
        invariant forall r, c :: 0 <= r < row && 0 <= c < Size ==> Grid()[r][c].Some?
      {
        for column := 0 to board.Length1
          invariant forall r, c :: InRange(r, c) && Before((r, c), (row, column)) ==> Grid()[r][c].Some?
        {
          if GetPieceOnPosition(row, column) == null {
            FirstEmptyCellUnique(Grid(), (row, column));
            return (row, column);
          }
        }
      }
      FirstEmptyCellUnique(Grid(), (-1, -1));
      return (-1, -1);
    }

    /**
     * chooseRandomPieceNotPlayed(numberOfAttempts), with Math.random() read
     * from draws at, at + 1, ...; also returns the next unused draw.
     */
    method ChooseRandomPieceNotPlayed(numberOfAttempts: nat, draws: Draws, at: nat) returns (pieceID: int, next: nat)
      requires Valid()
      ensures (pieceID, next) == RandomUnplaced(InPlay(), draws, at, numberOfAttempts)
      decreases numberOfAttempts
    {
      if numberOfAttempts == 0 {
        pieceID := ChooseNextPieceNotPlayed();
        return pieceID, at;
      }
      pieceID := RandomIndex(draws, at, pieces.Length);
      next := at + 1;
      if GetPiece(pieceID).inPlay {
        pieceID, next := ChooseRandomPieceNotPlayed(numberOfAttempts - 1, draws, next);
      }
    }

    /**
     * chooseRandomPositionNotPlayed(numberOfAttempts): a random row, then a
     * random column, retried on an occupied cell; also returns the next
     * unused draw.
     */
    method ChooseRandomPositionNotPlayed(numberOfAttempts: nat, draws: Draws, at: nat) returns (move: Cell, next: nat)
      requires Valid()
      ensures (move, next) == RandomEmptyCell(Grid(), draws, at, numberOfAttempts)
      decreases numberOfAttempts
    {
      if numberOfAttempts == 0 {
        move := ChooseNextPositionNotPlayed();
        return move, at;
      }
      var row := RandomIndex(draws, at, board.Length0);
      var column := RandomIndex(draws, at + 1, board.Length1);
      move, next := (row, column), at + 2;
      if GetPieceOnPosition(row, column) != null {
        move, next := ChooseRandomPositionNotPlayed(numberOfAttempts - 1, draws, next);
      }
    }

    /** checkIfBoardIsFull: every cell holds a piece. */
    method CheckIfBoardIsFull() returns (full: bool)
      requires Valid()
      ensures full == IsFull(Grid())
    {
      for row := 0 to board.Length0
        invariant forall r, c :: 0 <= r < row && 0 <= c < Size ==> Grid()[r][c].Some?
      {
        for column := 0 to board.Length1
          invariant forall r, c :: 0 <= r < row && 0 <= c < Size ==> Grid()[r][c].Some?
          invariant forall c :: 0 <= c < column ==> Grid()[row][c].Some?
        {
          if board[row, column] == null {
            assert Grid()[row][column].None?;
            return false;
          }
        }
      }
      return true;
    }
  }
}
