/**
 * The game on values, as the Quarto code decides it: a 5x5 grid of optional
 * piece ids, the win rule for a line of five cells, the in-play flags and
 * recorded positions of the 32 pieces, what insertPieceOnBoard does to them,
 * the sequential and random pickers of QuartoBoard, the immediate-win
 * heuristics of the agents, and rotation of the grid. The classes of the
 * other modules are proved against these definitions.
 */
module Rules {
  import opened Java
  import Piece

  /** NUMBER_OF_ROWS and NUMBER_OF_COLUMNS of the server. */
  const Size: int := 5
  /** NUMBER_OF_PIECES of the server. */
  const PieceCount: int := 32
  /** The number of characteristics of a piece. */
  const Traits: int := 5

  type Cell = (int, int)
  type Line = seq<Option<int>>
  type Grid = seq<seq<Option<int>>>

  predicate IsId(id: int) {
    0 <= id < PieceCount
  }

  predicate InRange(r: int, c: int) {
    0 <= r < Size && 0 <= c < Size
  }

  /** Characteristic k (0 tall, 1 solid, 2 white, 3 wood, 4 round) of the piece with this id. */
  predicate Trait(id: int, k: int)
    requires IsId(id) && 0 <= k < Traits
  {
    Bit(id, Traits - 1 - k) == 1
  }

  /** Trait is what setCharacteristics stores in characteristics[k]. */
  lemma TraitIsCharacteristic(id: int, k: int)
    requires IsId(id) && 0 <= k < Traits
    ensures |Piece.Characteristics(id)| == Traits
    ensures Trait(id, k) <==> Piece.Characteristics(id)[k]
  {
    Piece.CharacteristicIsBit(id);
  }

  ghost predicate IsGrid(g: Grid) {
    |g| == Size &&
    (forall r :: 0 <= r < Size ==> |g[r]| == Size) &&
    (forall r, c :: InRange(r, c) && g[r][c].Some? ==> IsId(g[r][c].value))
  }

  // ---------------------------------------------------------------------
  // Lines and the win rule
  // ---------------------------------------------------------------------

  function Column(g: Grid, c: int): Line
    requires IsGrid(g) && 0 <= c < Size
  {
    seq(Size, i requires 0 <= i < Size => g[i][c])
  }

  /** The cells (k, k). */
  function MainDiagonal(g: Grid): Line
    requires IsGrid(g)
  {
    seq(Size, k requires 0 <= k < Size => g[k][k])
  }

  /** The cells (Size - 1 - k, k), from the bottom-left corner up. */
  function AntiDiagonal(g: Grid): Line
    requires IsGrid(g)
  {
    seq(Size, k requires 0 <= k < Size => g[Size - 1 - k][k])
  }

  /** Every cell of the line holds a piece. */
  predicate Filled(line: Line) {
    forall i :: 0 <= i < |line| ==> line[i].Some? && IsId(line[i].value)
  }

  /** All pieces of a filled line agree on characteristic k. */
  predicate SharesTrait(line: Line, k: int)
    requires Filled(line) && |line| > 0 && 0 <= k < Traits
  {
    forall i :: 0 <= i < |line| ==> Trait(line[i].value, k) == Trait(line[0].value, k)
  }

  /** A line wins: five pieces that all agree on some characteristic. */
  predicate LineWins(line: Line) {
    |line| == Size && Filled(line) && exists k :: 0 <= k < Traits && SharesTrait(line, k)
  }

  /** The cells at the given coordinates, a cell off the board reading as empty. */
  function LineAt(g: Grid, cells: seq<Cell>): (line: Line)
    requires IsGrid(g)
    ensures |line| == |cells|
  {
    seq(|cells|, i requires 0 <= i < |cells| =>
      if InRange(cells[i].0, cells[i].1) then g[cells[i].0][cells[i].1] else None)
  }

  function RowCells(r: int): seq<Cell> {
    seq(Size, c => (r, c))
  }

  function ColumnCells(c: int): seq<Cell> {
    seq(Size, r => (r, c))
  }

  function MainDiagonalCells(): seq<Cell> {
    seq(Size, k => (k, k))
  }

  /** From (4, 0) up to (0, 4), the order in which checkDiagonals visits them. */
  function AntiDiagonalCells(): seq<Cell> {
    seq(Size, k => (Size - 1 - k, k))
  }

  /** The cells of a row read its line; the cells of a row off the board read an unfilled line. */
  lemma RowCellsLine(g: Grid, r: int)
    requires IsGrid(g)
    ensures 0 <= r < Size ==> LineAt(g, RowCells(r)) == g[r]
    ensures !(0 <= r < Size) ==> !Filled(LineAt(g, RowCells(r)))
  {
    if !(0 <= r < Size) {
      assert LineAt(g, RowCells(r))[0].None?;
    }
  }

  lemma ColumnCellsLine(g: Grid, c: int)
    requires IsGrid(g)
    ensures 0 <= c < Size ==> LineAt(g, ColumnCells(c)) == Column(g, c)
    ensures !(0 <= c < Size) ==> !Filled(LineAt(g, ColumnCells(c)))
  {
    if !(0 <= c < Size) {
      assert LineAt(g, ColumnCells(c))[0].None?;
    }
  }

  lemma DiagonalCellsLines(g: Grid)
    requires IsGrid(g)
    ensures LineAt(g, MainDiagonalCells()) == MainDiagonal(g)
    ensures LineAt(g, AntiDiagonalCells()) == AntiDiagonal(g)
  {
  }

  predicate RowWins(g: Grid, r: int)
    requires IsGrid(g)
  {
    0 <= r < Size && LineWins(g[r])
  }

  predicate ColumnWins(g: Grid, c: int)
    requires IsGrid(g)
  {
    0 <= c < Size && LineWins(Column(g, c))
  }

  predicate DiagonalsWin(g: Grid)
    requires IsGrid(g)
  {
    LineWins(MainDiagonal(g)) || LineWins(AntiDiagonal(g))
  }

  /** Some row, column or diagonal wins. */
  predicate HasWinningLine(g: Grid)
    requires IsGrid(g)
  {
    (exists r :: 0 <= r < Size && RowWins(g, r)) ||
    (exists c :: 0 <= c < Size && ColumnWins(g, c)) ||
    DiagonalsWin(g)
  }

  ghost predicate IsFull(g: Grid)
    requires IsGrid(g)
  {
    forall r, c :: InRange(r, c) ==> g[r][c].Some?
  }

  // ---------------------------------------------------------------------
  // The commonCharacteristics counters of checkRow, checkColumn, checkDiagonals
  // ---------------------------------------------------------------------

  predicate HasTrait(cell: Option<int>, k: int)
    requires 0 <= k < Traits
  {
    cell.Some? && IsId(cell.value) && Trait(cell.value, k)
  }

  /** How many of the first n cells of the line hold a piece with characteristic k. */
  function CountTrait(line: Line, k: int, n: int): int
    requires 0 <= k < Traits && 0 <= n <= |line|
  {
    if n == 0 then 0 else CountTrait(line, k, n - 1) + (if HasTrait(line[n - 1], k) then 1 else 0)
  }

  lemma {:induction false} CountTraitExtremes(line: Line, k: int, n: int)
    requires 0 <= k < Traits && 0 <= n <= |line|
    ensures 0 <= CountTrait(line, k, n) <= n
    ensures CountTrait(line, k, n) == 0 <==> forall i :: 0 <= i < n ==> !HasTrait(line[i], k)
    ensures CountTrait(line, k, n) == n <==> forall i :: 0 <= i < n ==> HasTrait(line[i], k)
  {
    if n > 0 {
      CountTraitExtremes(line, k, n - 1);
    }
  }

  /**
   * The counting test of the board (the count of characteristic k over a
   * filled line of five is 0 or 5) is the same as the pieces agreeing on k.
   */
  lemma CountDecidesShare(line: Line, k: int)
    requires |line| == Size && Filled(line) && 0 <= k < Traits
    ensures (CountTrait(line, k, Size) == 0 || CountTrait(line, k, Size) == Size) <==> SharesTrait(line, k)
  {
    CountTraitExtremes(line, k, Size);
    if SharesTrait(line, k) {
      if Trait(line[0].value, k) {
        assert forall i :: 0 <= i < Size ==> HasTrait(line[i], k);
      } else {
        assert forall i :: 0 <= i < Size ==> !HasTrait(line[i], k);
      }
    }
  }

  // ---------------------------------------------------------------------
  // Positions and insertPieceOnBoard
  // ---------------------------------------------------------------------

  /**
   * What a QuartoBoard holds, as values: the grid of piece ids, and for each
   * piece id its in-play flag and recorded row and column.
   */
  datatype Position = Position(grid: Grid, inPlay: seq<bool>, rows: seq<int>, columns: seq<int>)

  ghost predicate IsPosition(p: Position) {
    IsGrid(p.grid) && |p.inPlay| == PieceCount && |p.rows| == PieceCount && |p.columns| == PieceCount
  }

  /** The position the constructor builds: an empty grid, no piece in play, every position -1. */
  function EmptyPosition(): Position {
    Position(seq(Size, _ => seq(Size, _ => None)), seq(PieceCount, _ => false),
             seq(PieceCount, _ => -1), seq(PieceCount, _ => -1))
  }

  function Place(g: Grid, r: int, c: int, id: int): Grid
    requires IsGrid(g) && InRange(r, c) && IsId(id)
  {
    g[r := g[r][c := Some(id)]]
  }

  /**
   * The guard of insertPieceOnBoard: the cell is in range and the id names a
   * piece that is not in play. Whether the cell is empty is not checked.
   */
  predicate CanInsert(p: Position, r: int, c: int, id: int)
    requires IsPosition(p)
  {
    InRange(r, c) && IsId(id) && !p.inPlay[id]
  }

  /** insertPieceOnBoard on values: when the guard fails nothing changes. */
  function Insert(p: Position, r: int, c: int, id: int): (q: Position)
    requires IsPosition(p)
    ensures IsPosition(q)
    ensures !CanInsert(p, r, c, id) ==> q == p
    ensures CanInsert(p, r, c, id) ==>
      q.grid[r][c] == Some(id) && q.inPlay[id] && q.rows[id] == r && q.columns[id] == c
    ensures forall j :: 0 <= j < PieceCount && j != id ==>
      q.inPlay[j] == p.inPlay[j] && q.rows[j] == p.rows[j] && q.columns[j] == p.columns[j]
    ensures forall rr, cc :: InRange(rr, cc) && (rr != r || cc != c) ==> q.grid[rr][cc] == p.grid[rr][cc]
  {
    if CanInsert(p, r, c, id) then
      Position(Place(p.grid, r, c, id), p.inPlay[id := true], p.rows[id := r], p.columns[id := c])
    else p
  }

  /**
   * The board invariant of the data model: every filled cell holds a piece
   * in play whose recorded position is that cell, and every piece in play
   * sits on its recorded cell.
   */
  ghost predicate Coherent(p: Position)
    requires IsPosition(p)
  {
    (forall r, c :: InRange(r, c) && p.grid[r][c].Some? ==>
      p.inPlay[p.grid[r][c].value] && p.rows[p.grid[r][c].value] == r && p.columns[p.grid[r][c].value] == c) &&
    (forall id :: IsId(id) && p.inPlay[id] ==>
      InRange(p.rows[id], p.columns[id]) && p.grid[p.rows[id]][p.columns[id]] == Some(id))
  }

  /** Every piece on the board in g is still on its cell in h. */
  ghost predicate KeepsPlaced(g: Grid, h: Grid)
    requires IsGrid(g) && IsGrid(h)
  {
    forall r, c :: InRange(r, c) && g[r][c].Some? ==> h[r][c] == g[r][c]
  }

  lemma KeepsPlacedTransitive(f: Grid, g: Grid, h: Grid)
    requires IsGrid(f) && IsGrid(g) && IsGrid(h)
    requires KeepsPlaced(f, g) && KeepsPlaced(g, h)
    ensures KeepsPlaced(f, h)
  {
  }

  /** Inserting into an empty cell keeps the board coherent. */
  lemma InsertKeepsCoherent(p: Position, r: int, c: int, id: int)
    requires IsPosition(p) && Coherent(p)
    requires InRange(r, c) && p.grid[r][c].None?
    ensures Coherent(Insert(p, r, c, id))
  {
    if CanInsert(p, r, c, id) {
      var q := Insert(p, r, c, id);
      forall j | IsId(j) && q.inPlay[j]
        ensures InRange(q.rows[j], q.columns[j]) && q.grid[q.rows[j]][q.columns[j]] == Some(j)
      {
        if j != id {
          assert p.inPlay[j];
          assert (p.rows[j], p.columns[j]) != (r, c);
        }
      }
    }
  }

  /**
   * insertPieceOnBoard does not check that the cell is empty: inserting a
   * second piece on an occupied cell succeeds and leaves the first piece in
   * play at a cell that no longer holds it.
   */
  lemma InsertOnOccupiedCellBreaksCoherence()
    ensures var p := Insert(EmptyPosition(), 0, 0, 0);
      IsPosition(p) && Coherent(p) && p.grid[0][0].Some? &&
      CanInsert(p, 0, 0, 1) && !Coherent(Insert(p, 0, 0, 1))
  {
    var e := EmptyPosition();
    assert IsGrid(e.grid);
    var p := Insert(e, 0, 0, 0);
    InsertKeepsCoherent(e, 0, 0, 0);
    var q := Insert(p, 0, 0, 1);
    assert q.inPlay[0] && q.grid[q.rows[0]][q.columns[0]] == Some(1);
  }

  // ---------------------------------------------------------------------
  // Counting empty cells and pieces in play
  // ---------------------------------------------------------------------

  function EmptyInLine(line: Line, n: int): int
    requires 0 <= n <= |line|
  {
    if n == 0 then 0 else EmptyInLine(line, n - 1) + (if line[n - 1].None? then 1 else 0)
  }

  function EmptyInRows(g: Grid, n: int): int
    requires IsGrid(g) && 0 <= n <= Size
  {
    if n == 0 then 0 else EmptyInRows(g, n - 1) + EmptyInLine(g[n - 1], Size)
  }

  /** The number of empty cells of the grid. */
  function EmptyCount(g: Grid): int
    requires IsGrid(g)
  {
    EmptyInRows(g, Size)
  }

  function PlacedCount(inPlay: seq<bool>, n: int): int
    requires 0 <= n <= |inPlay|
  {
    if n == 0 then 0 else PlacedCount(inPlay, n - 1) + (if inPlay[n - 1] then 1 else 0)
  }

  /** Every piece in play accounts for exactly one filled cell. */
  predicate Tallied(p: Position)
    requires IsPosition(p)
  {
    PlacedCount(p.inPlay, PieceCount) + EmptyCount(p.grid) == Size * Size
  }

  lemma {:induction false} EmptyInLineBounds(line: Line, n: int)
    requires 0 <= n <= |line|
    ensures 0 <= EmptyInLine(line, n) <= n
    ensures EmptyInLine(line, n) == 0 <==> forall i :: 0 <= i < n ==> line[i].Some?
  {
    if n > 0 {
      EmptyInLineBounds(line, n - 1);
    }
  }

  lemma {:induction false} EmptyInRowsBounds(g: Grid, n: int)
    requires IsGrid(g) && 0 <= n <= Size
    ensures 0 <= EmptyInRows(g, n) <= n * Size
    ensures EmptyInRows(g, n) == 0 <==> forall r, c :: 0 <= r < n && 0 <= c < Size ==> g[r][c].Some?
  {
    if n > 0 {
      EmptyInRowsBounds(g, n - 1);
      EmptyInLineBounds(g[n - 1], Size);
      if EmptyInRows(g, n) == 0 {
        forall r, c | 0 <= r < n && 0 <= c < Size ensures g[r][c].Some? {
          if r == n - 1 {
            assert g[r][c].Some?;
          }
        }
      }
    }
  }

  /** The empty-cell count is between 0 and 25, and it is 0 exactly when the grid is full. */
  lemma EmptyCountFull(g: Grid)
    requires IsGrid(g)
    ensures 0 <= EmptyCount(g) <= Size * Size
    ensures EmptyCount(g) == 0 <==> IsFull(g)
  {
    EmptyInRowsBounds(g, Size);
  }

  lemma {:induction false} EmptyInLineUpdate(line: Line, c: int, x: Option<int>, n: int)
    requires 0 <= c < |line| && 0 <= n <= |line|
    ensures EmptyInLine(line[c := x], n) ==
      EmptyInLine(line, n) + (if c < n then (if x.None? then 1 else 0) - (if line[c].None? then 1 else 0) else 0)
  {
    if n > 0 {
      EmptyInLineUpdate(line, c, x, n - 1);
    }
  }

  lemma {:induction false} EmptyInRowsPlace(g: Grid, r: int, c: int, id: int, n: int)
    requires IsGrid(g) && InRange(r, c) && IsId(id) && g[r][c].None? && 0 <= n <= Size
    ensures EmptyInRows(Place(g, r, c, id), n) == EmptyInRows(g, n) - (if r < n then 1 else 0)
  {
    if n > 0 {
      EmptyInRowsPlace(g, r, c, id, n - 1);
      if n - 1 == r {
        EmptyInLineUpdate(g[r], c, Some(id), Size);
      }
    }
  }

  lemma {:induction false} PlacedCountUpdate(s: seq<bool>, j: int, n: int)
    requires 0 <= j < |s| && !s[j] && 0 <= n <= |s|
    ensures PlacedCount(s[j := true], n) == PlacedCount(s, n) + (if j < n then 1 else 0)
  {
    if n > 0 {
      PlacedCountUpdate(s, j, n - 1);
    }
  }

  lemma {:induction false} PlacedCountBelow(s: seq<bool>, n: int)
    requires 0 <= n <= |s|
    ensures 0 <= PlacedCount(s, n) <= n
    ensures PlacedCount(s, n) < n ==> exists i :: 0 <= i < n && !s[i]
  {
    if n > 0 {
      PlacedCountBelow(s, n - 1);
    }
  }

  /**
   * A successful insertion into an empty cell fills exactly one cell and puts
   * exactly one more piece in play, so the tally is kept and the number of
   * empty cells drops by one.
   */
  lemma InsertCounts(p: Position, r: int, c: int, id: int)
    requires IsPosition(p) && CanInsert(p, r, c, id) && p.grid[r][c].None?
    ensures EmptyCount(Insert(p, r, c, id).grid) == EmptyCount(p.grid) - 1
    ensures PlacedCount(Insert(p, r, c, id).inPlay, PieceCount) == PlacedCount(p.inPlay, PieceCount) + 1
    ensures Tallied(p) ==> Tallied(Insert(p, r, c, id))
  {
    EmptyInRowsPlace(p.grid, r, c, id, Size);
    PlacedCountUpdate(p.inPlay, id, PieceCount);
  }

  /** On a tallied board that is not full some piece is still out of play. */
  lemma UnplacedPieceExists(p: Position)
    requires IsPosition(p) && Tallied(p) && !IsFull(p.grid)
    ensures exists id :: IsId(id) && !p.inPlay[id]
  {
    EmptyCountFull(p.grid);
    PlacedCountBelow(p.inPlay, PieceCount);
  }

  /** The starting position is coherent, tallied, not full and has no winning line. */
  lemma EmptyPositionFacts()
    ensures IsPosition(EmptyPosition())
    ensures Coherent(EmptyPosition()) && Tallied(EmptyPosition())
    ensures !IsFull(EmptyPosition().grid) && !HasWinningLine(EmptyPosition().grid)
    ensures EmptyCount(EmptyPosition().grid) == Size * Size
  {
    var p := EmptyPosition();
    assert IsGrid(p.grid);
    assert !p.grid[0][0].Some?;
    assert forall n :: 0 <= n <= Size ==> EmptyInLine(p.grid[0], n) == n by {
      forall n | 0 <= n <= Size ensures EmptyInLine(p.grid[0], n) == n {
        EmptyInLineAllEmpty(p.grid[0], n);
      }
    }
    assert forall r :: 0 <= r < Size ==> p.grid[r] == p.grid[0];
    assert EmptyInRows(p.grid, 5) == 25 by {
      assert EmptyInRows(p.grid, 1) == 5;
      assert EmptyInRows(p.grid, 2) == 10;
      assert EmptyInRows(p.grid, 3) == 15;
      assert EmptyInRows(p.grid, 4) == 20;
    }
    PlacedCountNone(p.inPlay, PieceCount);
    assert !LineWins(MainDiagonal(p.grid)) by { assert MainDiagonal(p.grid)[0].None?; }
    assert !LineWins(AntiDiagonal(p.grid)) by { assert AntiDiagonal(p.grid)[0].None?; }
    assert forall c :: 0 <= c < Size ==> !ColumnWins(p.grid, c) by {
      forall c | 0 <= c < Size ensures !ColumnWins(p.grid, c) {
        assert Column(p.grid, c)[0].None?;
      }
    }
  }

  lemma {:induction false} EmptyInLineAllEmpty(line: Line, n: int)
    requires 0 <= n <= |line| && forall i :: 0 <= i < |line| ==> line[i].None?
    ensures EmptyInLine(line, n) == n
  {
    if n > 0 {
      EmptyInLineAllEmpty(line, n - 1);
    }
  }

  lemma {:induction false} PlacedCountNone(s: seq<bool>, n: int)
    requires 0 <= n <= |s| && forall i :: 0 <= i < |s| ==> !s[i]
    ensures PlacedCount(s, n) == 0
  {
    if n > 0 {
      PlacedCountNone(s, n - 1);
    }
  }

  /**
   * A placement on a board without a winning line can only complete a line
   * through the placed cell: its row, its column, or a diagonal. This is why
   * the agents' check of checkRow(r) || checkColumn(c) || checkDiagonals()
   * after placing at (r, c) agrees with a check of the whole board.
   */
  lemma WinThroughPlacement(g: Grid, r: int, c: int, id: int)
    requires IsGrid(g) && InRange(r, c) && IsId(id) && !HasWinningLine(g)
    ensures var h := Place(g, r, c, id);
      IsGrid(h) && (HasWinningLine(h) <==> RowWins(h, r) || ColumnWins(h, c) || DiagonalsWin(h))
  {
    var h := Place(g, r, c, id);
    assert IsGrid(h);
    if HasWinningLine(h) && !(RowWins(h, r) || ColumnWins(h, c) || DiagonalsWin(h)) {
      if exists rr :: 0 <= rr < Size && RowWins(h, rr) {
        var rr :| 0 <= rr < Size && RowWins(h, rr);
        assert h[rr] == g[rr];
        assert RowWins(g, rr);
      } else {
        var cc :| 0 <= cc < Size && ColumnWins(h, cc);
        assert Column(h, cc) == Column(g, cc);
        assert ColumnWins(g, cc);
      }
    }
  }

  // ---------------------------------------------------------------------
  // Sequential scans: chooseNextPieceNotPlayed, chooseNextPositionNotPlayed
  // ---------------------------------------------------------------------

  /** Row-major order of cells. */
  predicate Before(a: Cell, b: Cell) {
    a.0 < b.0 || (a.0 == b.0 && a.1 < b.1)
  }

  /** The least id from `from` on that passes the test, or -1 when none does. */
  function FirstIdFrom(test: int -> bool, from: int): (id: int)
    requires 0 <= from
    ensures id == -1 || (from <= id < PieceCount && test(id))
    ensures forall i :: from <= i < PieceCount && (id == -1 || i < id) ==> !test(i)
    decreases PieceCount - from
  {
    if from >= PieceCount then -1
    else if test(from) then from
    else FirstIdFrom(test, from + 1)
  }

  /** The first cell at or after (r, c) in row-major order that passes the test. */
  function FirstCellFrom(test: (int, int) -> bool, r: int, c: int): (found: Option<Cell>)
    requires 0 <= r <= Size && 0 <= c <= Size
    ensures found.Some? ==>
      InRange(found.value.0, found.value.1) && test(found.value.0, found.value.1) && !Before(found.value, (r, c))
    ensures forall rr, cc ::
      (InRange(rr, cc) && !Before((rr, cc), (r, c)) && (found.None? || Before((rr, cc), found.value))) ==> !test(rr, cc)
    decreases Size - r, Size - c
  {
    if r == Size then None
    else if c == Size then FirstCellFrom(test, r + 1, 0)
    else if test(r, c) then Some((r, c))
    else FirstCellFrom(test, r, c + 1)
  }

  /** chooseNextPieceNotPlayed(offset): the least id from offset on that is not in play, else -1. */
  function FirstUnplaced(inPlay: seq<bool>, offset: int): (id: int)
    requires |inPlay| == PieceCount && 0 <= offset
  {
    FirstIdFrom(i => 0 <= i < PieceCount && !inPlay[i], offset)
  }

  /** chooseNextPositionNotPlayed: the first empty cell in row-major order, else (-1, -1). */
  function FirstEmptyCell(g: Grid): (cell: Cell)
    requires IsGrid(g)
  {
    match FirstCellFrom((r, c) => InRange(r, c) && g[r][c].None?, 0, 0)
    case Some(cell) => cell
    case None => (-1, -1)
  }

  lemma FirstUnplacedSpec(inPlay: seq<bool>, offset: int)
    requires |inPlay| == PieceCount && 0 <= offset
    ensures var id := FirstUnplaced(inPlay, offset);
      (id == -1 <==> forall i :: offset <= i < PieceCount ==> inPlay[i]) &&
      (id != -1 ==> (offset <= id < PieceCount && !inPlay[id] && forall i :: offset <= i < id ==> inPlay[i]))
  {
    var test := i => 0 <= i < PieceCount && !inPlay[i];
    var id := FirstIdFrom(test, offset);
    assert id == FirstUnplaced(inPlay, offset);
    forall i | offset <= i < PieceCount && (id == -1 || i < id) ensures inPlay[i] {
      assert !test(i);
    }
    if id != -1 {
      assert test(id);
    }
  }

  lemma FirstEmptyCellSpec(g: Grid)
    requires IsGrid(g)
    ensures var cell := FirstEmptyCell(g);
      (cell == (-1, -1) <==> IsFull(g)) &&
      (cell != (-1, -1) ==>
        (InRange(cell.0, cell.1) && g[cell.0][cell.1].None? &&
         forall r, c :: InRange(r, c) && Before((r, c), cell) ==> g[r][c].Some?))
  {
    var test := (r, c) => InRange(r, c) && g[r][c].None?;
    var found := FirstCellFrom(test, 0, 0);
    if found.None? {
      forall r, c | InRange(r, c) ensures g[r][c].Some? {
        assert !test(r, c);
      }
    } else {
      forall r, c | InRange(r, c) && Before((r, c), found.value) ensures g[r][c].Some? {
        assert !test(r, c);
      }
    }
  }

  /** An id that is unplaced with every id before it (from offset on) in play is the first unplaced one. */
  lemma FirstUnplacedUnique(inPlay: seq<bool>, offset: int, id: int)
    requires |inPlay| == PieceCount && 0 <= offset
    requires id == -1 || (offset <= id < PieceCount && !inPlay[id])
    requires forall i :: offset <= i < PieceCount && (id == -1 || i < id) ==> inPlay[i]
    ensures FirstUnplaced(inPlay, offset) == id
  {
    FirstUnplacedSpec(inPlay, offset);
  }

  /** An empty cell with every cell before it filled is the first empty cell. */
  lemma FirstEmptyCellUnique(g: Grid, cell: Cell)
    requires IsGrid(g)
    requires cell == (-1, -1) || (InRange(cell.0, cell.1) && g[cell.0][cell.1].None?)
    requires forall r, c :: InRange(r, c) && (cell == (-1, -1) || Before((r, c), cell)) ==> g[r][c].Some?
    ensures FirstEmptyCell(g) == cell
  {
    FirstEmptyCellSpec(g);
    var first := FirstEmptyCell(g);
    if first != cell && first != (-1, -1) && cell != (-1, -1) {
      assert !Before(first, cell);
      assert !Before(cell, first);
    }
  }

  // ---------------------------------------------------------------------
  // chooseRandomPieceNotPlayed and chooseRandomPositionNotPlayed
  // ---------------------------------------------------------------------

  /** The number of attempts every caller of the two random pickers passes. */
  const FallbackAttempts := 100

  /**
   * chooseRandomPieceNotPlayed(attempts), starting at draw number `at`: each
   * attempt draws an id; an id in play costs one attempt; with no attempts left
   * it is chooseNextPieceNotPlayed(). Returns the id and the next unused draw.
   */
  function RandomUnplaced(inPlay: seq<bool>, draws: Draws, at: nat, attempts: nat): (res: (int, nat))
    requires |inPlay| == PieceCount
    ensures at <= res.1 <= at + attempts
    ensures (exists i :: IsId(i) && !inPlay[i]) ==> IsId(res.0) && !inPlay[res.0]
    ensures (forall i :: IsId(i) ==> inPlay[i]) ==> res.0 == -1
    ensures attempts == 0 ==> res == (FirstUnplaced(inPlay, 0), at)
    decreases attempts
  {
    if attempts == 0 then
      FirstUnplacedSpec(inPlay, 0);
      (FirstUnplaced(inPlay, 0), at)
    else
      var pieceId := RandomIndex(draws, at, PieceCount);
      if inPlay[pieceId] then RandomUnplaced(inPlay, draws, at + 1, attempts - 1) else (pieceId, at + 1)
  }

  /**
   * chooseRandomPositionNotPlayed(attempts), starting at draw number `at`:
   * each attempt draws a row and then a column; an occupied cell costs one
   * attempt; with no attempts left it is chooseNextPositionNotPlayed().
   */
  function RandomEmptyCell(g: Grid, draws: Draws, at: nat, attempts: nat): (res: (Cell, nat))
    requires IsGrid(g)
    ensures at <= res.1 <= at + 2 * attempts
    ensures !IsFull(g) ==> InRange(res.0.0, res.0.1) && g[res.0.0][res.0.1].None?
    ensures IsFull(g) ==> res.0 == (-1, -1)
    ensures attempts == 0 ==> res == (FirstEmptyCell(g), at)
    decreases attempts
  {
    if attempts == 0 then
      FirstEmptyCellSpec(g);
      (FirstEmptyCell(g), at)
    else
      var row := RandomIndex(draws, at, Size);
      var column := RandomIndex(draws, at + 1, Size);
      if g[row][column].Some? then RandomEmptyCell(g, draws, at + 2, attempts - 1)
      else ((row, column), at + 2)
  }

  // ---------------------------------------------------------------------
  // The immediate-win heuristics of the agents
  // ---------------------------------------------------------------------

  /**
   * On a copy of the position, insertPieceOnBoard(r, c, id) followed by
   * checkRow(r) || checkColumn(c) || checkDiagonals() reports a win.
   */
  predicate WinsAfterInsert(p: Position, r: int, c: int, id: int)
    requires IsPosition(p)
  {
    WinsThrough(Insert(p, r, c, id).grid, r, c)
  }

  /** checkRow(r) || checkColumn(c) || checkDiagonals(): isWin(board, r, c) and the agents' test. */
  predicate WinsThrough(g: Grid, r: int, c: int)
    requires IsGrid(g)
  {
    RowWins(g, r) || ColumnWins(g, c) || DiagonalsWin(g)
  }

  /** The test only finds lines of the grid. */
  lemma WinsThroughIsWin(g: Grid, r: int, c: int)
    requires IsGrid(g) && WinsThrough(g, r, c)
    ensures HasWinningLine(g)
  {
  }

  /** (r, c) is an empty cell where placing id wins on the spot. */
  predicate ImmediateWin(p: Position, r: int, c: int, id: int)
    requires IsPosition(p)
  {
    InRange(r, c) && p.grid[r][c].None? && WinsAfterInsert(p, r, c, id)
  }

  /** Some empty cell lets the piece id win on the spot. */
  ghost predicate CanWinImmediately(p: Position, id: int)
    requires IsPosition(p)
  {
    exists r, c :: ImmediateWin(p, r, c, id)
  }

  /** The first cell in row-major order where placing id wins on the spot. */
  function FirstWinningCell(p: Position, id: int): Option<Cell>
    requires IsPosition(p)
  {
    FirstCellFrom((r, c) => ImmediateWin(p, r, c, id), 0, 0)
  }

  /** The least id not in play that cannot win on the spot, or -1. */
  ghost function FirstSafePiece(p: Position): int
    requires IsPosition(p)
  {
    FirstIdFrom(i => IsId(i) && !p.inPlay[i] && !CanWinImmediately(p, i), 0)
  }

  lemma FirstWinningCellSpec(p: Position, id: int)
    requires IsPosition(p)
    ensures match FirstWinningCell(p, id)
      case Some(cell) =>
        ImmediateWin(p, cell.0, cell.1, id) &&
        forall r, c :: InRange(r, c) && Before((r, c), cell) ==> !ImmediateWin(p, r, c, id)
      case None => !CanWinImmediately(p, id)
  {
    var test := (r, c) => ImmediateWin(p, r, c, id);
    var found := FirstCellFrom(test, 0, 0);
    if found.None? {
      forall r, c | InRange(r, c) ensures !ImmediateWin(p, r, c, id) {
        assert !test(r, c);
      }
    } else {
      forall r, c | InRange(r, c) && Before((r, c), found.value) ensures !ImmediateWin(p, r, c, id) {
        assert !test(r, c);
      }
    }
  }

  lemma FirstSafePieceSpec(p: Position)
    requires IsPosition(p)
    ensures var id := FirstSafePiece(p);
      (id == -1 <==> forall i :: IsId(i) && !p.inPlay[i] ==> CanWinImmediately(p, i)) &&
      (id != -1 ==>
        (IsId(id) && !p.inPlay[id] && !CanWinImmediately(p, id) &&
         forall i :: 0 <= i < id && !p.inPlay[i] ==> CanWinImmediately(p, i)))
  {
    var test := i => IsId(i) && !p.inPlay[i] && !CanWinImmediately(p, i);
    var id := FirstIdFrom(test, 0);
    assert id == FirstSafePiece(p);
    forall i | 0 <= i < PieceCount && (id == -1 || i < id) ensures !(!p.inPlay[i] && !CanWinImmediately(p, i)) {
      assert !test(i);
    }
    if id != -1 {
      assert test(id);
    }
  }

  /** A winning cell with no winning cell before it (or no winning cell at all) is what FirstWinningCell finds. */
  lemma FirstWinningCellUnique(p: Position, id: int, found: Option<Cell>)
    requires IsPosition(p)
    requires found.Some? ==> ImmediateWin(p, found.value.0, found.value.1, id)
    requires forall r, c :: InRange(r, c) && (found.None? || Before((r, c), found.value)) ==> !ImmediateWin(p, r, c, id)
    ensures FirstWinningCell(p, id) == found
  {
    FirstWinningCellSpec(p, id);
    var first := FirstWinningCell(p, id);
    if first.Some? && found.Some? && first != found {
      assert !Before(first.value, found.value);
      assert !Before(found.value, first.value);
    }
  }

  /** A safe piece with every piece before it unsafe or in play (or no safe piece, -1) is FirstSafePiece. */
  lemma FirstSafePieceUnique(p: Position, id: int)
    requires IsPosition(p)
    requires id == -1 || (IsId(id) && !p.inPlay[id] && !CanWinImmediately(p, id))
    requires forall i :: 0 <= i < PieceCount && (id == -1 || i < id) && !p.inPlay[i] ==> CanWinImmediately(p, i)
    ensures FirstSafePiece(p) == id
  {
    FirstSafePieceSpec(p);
  }

  /**
   * moveSelectionAlgorithm and semiRandomMove: the first cell in row-major
   * order where the piece wins on the spot, else
   * chooseRandomPositionNotPlayed(100). With the next unused draw.
   */
  function SemiRandomMove(p: Position, id: int, draws: Draws, at: nat): (res: (Cell, nat))
    requires IsPosition(p)
    ensures !IsFull(p.grid) ==> InRange(res.0.0, res.0.1) && p.grid[res.0.0][res.0.1].None?
  {
    match FirstWinningCell(p, id)
    case Some(cell) => (cell, at)
    case None => RandomEmptyCell(p.grid, draws, at, FallbackAttempts)
  }

  /** When some empty cell wins on the spot, the move is the first such cell and spends no draw. */
  lemma SemiRandomMoveTakesWin(p: Position, id: int, draws: Draws, at: nat)
    requires IsPosition(p)
    ensures var (cell, next) := SemiRandomMove(p, id, draws, at);
      if CanWinImmediately(p, id) then
        next == at && ImmediateWin(p, cell.0, cell.1, id) &&
        forall r, c :: InRange(r, c) && Before((r, c), cell) ==> !ImmediateWin(p, r, c, id)
      else (cell, next) == RandomEmptyCell(p.grid, draws, at, FallbackAttempts)
  {
    FirstWinningCellSpec(p, id);
  }

  /**
   * pieceSelectionAlgorithm and semiRandomPieceSelection: the least piece
   * not in play that cannot win on the spot, else
   * chooseRandomPieceNotPlayed(100). With the next unused draw.
   */
  ghost function SemiRandomPiece(p: Position, draws: Draws, at: nat): (res: (int, nat))
    requires IsPosition(p)
    ensures (exists i :: IsId(i) && !p.inPlay[i]) ==> IsId(res.0) && !p.inPlay[res.0]
  {
    var safe := FirstSafePiece(p);
    if safe != -1 then (safe, at) else RandomUnplaced(p.inPlay, draws, at, FallbackAttempts)
  }

  /** When some piece not in play cannot win on the spot, the least such piece is handed over. */
  lemma SemiRandomPieceIsSafe(p: Position, draws: Draws, at: nat)
    requires IsPosition(p)
    ensures var (id, next) := SemiRandomPiece(p, draws, at);
      if exists i :: IsId(i) && !p.inPlay[i] && !CanWinImmediately(p, i) then
        next == at && IsId(id) && !p.inPlay[id] && !CanWinImmediately(p, id) &&
        forall i :: 0 <= i < id && !p.inPlay[i] ==> CanWinImmediately(p, i)
      else (id, next) == RandomUnplaced(p.inPlay, draws, at, FallbackAttempts)
  {
    FirstSafePieceSpec(p);
  }

  // ---------------------------------------------------------------------
  // Rotation of the grid (rotateBoard)
  // ---------------------------------------------------------------------

  /** rotateBoard: result[i][Size - 1 - j] = g[j][i], a quarter turn clockwise. */
  function Rotate(g: Grid): (h: Grid)
    requires IsGrid(g)
    ensures IsGrid(h)
  {
    seq(Size, i requires 0 <= i < Size => seq(Size, k requires 0 <= k < Size => g[Size - 1 - k][i]))
  }

  function Reverse(line: Line): Line {
    seq(|line|, i requires 0 <= i < |line| => line[|line| - 1 - i])
  }

  lemma Rotate2(g: Grid)
    requires IsGrid(g)
    ensures forall i, j :: InRange(i, j) ==> Rotate(Rotate(g))[i][j] == g[Size - 1 - i][Size - 1 - j]
  {
  }

  /** Four quarter turns give back the grid, so getRotatedBoards yields the other three rotations. */
  lemma RotateFourTimes(g: Grid)
    requires IsGrid(g)
    ensures Rotate(Rotate(Rotate(Rotate(g)))) == g
  {
    var h := Rotate(Rotate(g));
    Rotate2(g);
    Rotate2(h);
    var k := Rotate(Rotate(h));
    forall i | 0 <= i < Size ensures k[i] == g[i] {
      assert forall j :: 0 <= j < Size ==> k[i][j] == g[i][j];
    }
  }

  lemma ReverseWins(line: Line)
    ensures LineWins(Reverse(line)) <==> LineWins(line)
  {
    var rev := Reverse(line);
    if |line| == Size && Filled(line) {
      assert Filled(rev);
      forall k | 0 <= k < Traits ensures SharesTrait(rev, k) <==> SharesTrait(line, k) {
        if SharesTrait(line, k) {
          assert Trait(rev[0].value, k) == Trait(line[0].value, k);
        }
        if SharesTrait(rev, k) {
          assert rev[Size - 1] == line[0];
          assert forall i :: 0 <= i < Size ==> line[i] == rev[Size - 1 - i];
        }
      }
    } else if |rev| == Size && Filled(rev) {
      assert Filled(line) by {
        forall i | 0 <= i < |line| ensures line[i].Some? && IsId(line[i].value) {
          assert line[i] == rev[|line| - 1 - i];
        }
      }
    }
  }

  /** The lines of a rotated grid are the lines of the grid, some reversed. */
  lemma RotatedLines(g: Grid)
    requires IsGrid(g)
    ensures forall i :: 0 <= i < Size ==> Rotate(g)[i] == Reverse(Column(g, i))
    ensures forall j :: 0 <= j < Size ==> Column(Rotate(g), j) == g[Size - 1 - j]
    ensures MainDiagonal(Rotate(g)) == AntiDiagonal(g)
    ensures AntiDiagonal(Rotate(g)) == Reverse(MainDiagonal(g))
  {
  }

  /** A rotated grid has a winning line exactly when the grid has one. */
  lemma RotatePreservesWin(g: Grid)
    requires IsGrid(g)
    ensures HasWinningLine(Rotate(g)) <==> HasWinningLine(g)
  {
    var h := Rotate(g);
    RotatedLines(g);
    ReverseWins(MainDiagonal(g));
    if exists r :: 0 <= r < Size && RowWins(h, r) {
      var r :| 0 <= r < Size && RowWins(h, r);
      ReverseWins(Column(g, r));
      assert ColumnWins(g, r);
    }
    if exists c :: 0 <= c < Size && ColumnWins(h, c) {
      var c :| 0 <= c < Size && ColumnWins(h, c);
      assert RowWins(g, Size - 1 - c);
    }
    if exists r :: 0 <= r < Size && RowWins(g, r) {
      var r :| 0 <= r < Size && RowWins(g, r);
      assert ColumnWins(h, Size - 1 - r);
    }
    if exists c :: 0 <= c < Size && ColumnWins(g, c) {
      var c :| 0 <= c < Size && ColumnWins(g, c);
      ReverseWins(Column(g, c));
      assert RowWins(h, c);
    }
  }

  /** A rotated grid is full exactly when the grid is. */
  lemma RotatePreservesFull(g: Grid)
    requires IsGrid(g)
    ensures IsFull(Rotate(g)) <==> IsFull(g)
  {
    if IsFull(Rotate(g)) {
      forall r, c | InRange(r, c) ensures g[r][c].Some? {
        assert Rotate(g)[c][Size - 1 - r] == g[r][c];
      }
    }
  }
}
