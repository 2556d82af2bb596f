/**
 * The value model behind QuartoPlayerAgent.java: the action lists of the
 * search tree's nodes and the random playout of playGame, on the positions
 * of Rules.
 */
module Playout {
  import opened Java
  import opened Rules
  import Server

  // ---------------------------------------------------------------------
  // ArrayList<String>.remove(Object): the first occurrence goes
  // ---------------------------------------------------------------------

  /** The list without its first occurrence of x; unchanged when x does not occur. */
  function RemoveFirst(s: seq<string>, x: string): (r: seq<string>)
    ensures x !in s ==> r == s
    ensures x in s ==> |r| == |s| - 1 && multiset(r) == multiset(s) - multiset{x}
  {
    if |s| == 0 then s
    else if s[0] == x then
      assert s == [s[0]] + s[1..];
      s[1..]
    else
      assert s == [s[0]] + s[1..];
      [s[0]] + RemoveFirst(s[1..], x)
  }

  /** The index of the first occurrence of x. */
  function FirstIndex(s: seq<string>, x: string): (i: nat)
    requires x in s
    ensures i < |s| && s[i] == x && forall j :: 0 <= j < i ==> s[j] != x
  {
    if s[0] == x then 0 else 1 + FirstIndex(s[1..], x)
  }

  /** The element removed is the first occurrence: everything before it and after it stays, in order. */
  lemma {:induction false} RemoveFirstSplits(s: seq<string>, x: string)
    requires x in s
    ensures |RemoveFirst(s, x)| == |s| - 1
    ensures forall j {:trigger RemoveFirst(s, x)[j]} :: 0 <= j < |s| - 1 ==>
      RemoveFirst(s, x)[j] == if j < FirstIndex(s, x) then s[j] else s[j + 1]
  {
    if s[0] != x {
      var t := s[1..];
      RemoveFirstSplits(t, x);
      var r, rest := RemoveFirst(s, x), RemoveFirst(t, x);
      assert r == [s[0]] + rest;
      forall j | 1 <= j < |r| ensures r[j] == if j < FirstIndex(s, x) then s[j] else s[j + 1] {
        assert r[j] == rest[j - 1];
      }
    }
  }

  // ---------------------------------------------------------------------
  // getPossiblePieces and the actions of a SelectPieceNode
  // ---------------------------------------------------------------------

  /** The ids below n that are not in play, in ascending order. */
  function UnplacedBelow(inPlay: seq<bool>, n: int): (ids: seq<int>)
    requires 0 <= n <= |inPlay|
    ensures forall k :: 0 <= k < |ids| ==> 0 <= ids[k] < n && !inPlay[ids[k]]
  {
    if n == 0 then [] else UnplacedBelow(inPlay, n - 1) + (if inPlay[n - 1] then [] else [n - 1])
  }

  /** getPossiblePieces: the ids not in play. */
  function UnplacedIds(inPlay: seq<bool>): seq<int>
    requires |inPlay| == PieceCount
  {
    UnplacedBelow(inPlay, PieceCount)
  }

  /** Exactly the ids below n that are not in play, each once, ascending; one per piece not counted as placed. */
  lemma UnplacedBelowSpec(inPlay: seq<bool>, n: int)
    requires 0 <= n <= |inPlay|
    ensures var ids := UnplacedBelow(inPlay, n);
      (forall id :: id in ids <==> 0 <= id < n && !inPlay[id]) &&
      (forall j, k :: 0 <= j < k < |ids| ==> ids[j] < ids[k]) &&
      |ids| == n - PlacedCount(inPlay, n)
  {
    UnplacedBelowMembers(inPlay, n);
    UnplacedBelowAscending(inPlay, n);
    UnplacedBelowCount(inPlay, n);
  }

  lemma {:induction false} UnplacedBelowMembers(inPlay: seq<bool>, n: int)
    requires 0 <= n <= |inPlay|
    ensures forall id :: id in UnplacedBelow(inPlay, n) <==> 0 <= id < n && !inPlay[id]
  {
    if n > 0 {
      UnplacedBelowMembers(inPlay, n - 1);
      var front, back := UnplacedBelow(inPlay, n - 1), if inPlay[n - 1] then [] else [n - 1];
      forall id ensures id in front + back <==> id in front || id in back {
      }
    }
  }

  lemma {:induction false} UnplacedBelowAscending(inPlay: seq<bool>, n: int)
    requires 0 <= n <= |inPlay|
    ensures forall j, k :: 0 <= j < k < |UnplacedBelow(inPlay, n)| ==> UnplacedBelow(inPlay, n)[j] < UnplacedBelow(inPlay, n)[k]
  {
    if n > 0 {
      UnplacedBelowAscending(inPlay, n - 1);
      var front, back := UnplacedBelow(inPlay, n - 1), if inPlay[n - 1] then [] else [n - 1];
      forall j, k | 0 <= j < k < |front + back| ensures (front + back)[j] < (front + back)[k] {
        if k < |front| {
          assert (front + back)[j] == front[j] && (front + back)[k] == front[k];
        } else if j < |front| {
          assert (front + back)[j] == front[j] && (front + back)[k] == n - 1;
        }
      }
    }
  }

  lemma {:induction false} UnplacedBelowCount(inPlay: seq<bool>, n: int)
    requires 0 <= n <= |inPlay|
    ensures |UnplacedBelow(inPlay, n)| == n - PlacedCount(inPlay, n)
  {
    if n > 0 {
      UnplacedBelowCount(inPlay, n - 1);
    }
  }

  /**
   * The remainingMoves of a new SelectPieceNode: the five-digit binary names
   * of the pieces not in play, in ascending order, except that on a board
   * with no piece in play the only action is "00000".
   */
  function PieceActions(inPlay: seq<bool>): seq<string>
    requires |inPlay| == PieceCount
  {
    var ids := UnplacedIds(inPlay);
    if |ids| == PieceCount then ["00000"]
    else seq(|ids|, k requires 0 <= k < |ids| => BinaryName(ids[k]))
  }

  /** An action that parsePiece reads, in base 2, as a piece not in play. */
  predicate NamesUnplaced(inPlay: seq<bool>, a: string)
    requires |inPlay| == PieceCount
  {
    ParseInt(a, 2).Some? && IsId(ParseInt(a, 2).value) && !inPlay[ParseInt(a, 2).value]
  }

  /** Every piece action names, in base 2, a piece that is not in play. */
  lemma PieceActionsNameUnplaced(inPlay: seq<bool>)
    requires |inPlay| == PieceCount
    ensures forall k :: 0 <= k < |PieceActions(inPlay)| ==> NamesUnplaced(inPlay, PieceActions(inPlay)[k])
  {
    var ids := UnplacedIds(inPlay);
    UnplacedBelowSpec(inPlay, PieceCount);
    if |ids| == PieceCount {
      AllUnplacedWhenNoneCounted(inPlay);
      assert BinaryName(0) == "00000";
      ParseBinaryName(0);
    } else {
      forall k | 0 <= k < |ids| ensures NamesUnplaced(inPlay, PieceActions(inPlay)[k]) {
        ParseBinaryName(ids[k]);
      }
    }
  }

  /**
   * With no piece in play the single action names piece 0; with some piece
   * in play every piece not in play has its action, in ascending order of id.
   */
  lemma PieceActionsCover(inPlay: seq<bool>)
    requires |inPlay| == PieceCount
    ensures (forall id :: IsId(id) ==> !inPlay[id]) ==> PieceActions(inPlay) == [BinaryName(0)]
    ensures (exists id :: IsId(id) && inPlay[id]) ==>
      |PieceActions(inPlay)| == |UnplacedIds(inPlay)| &&
      forall k :: 0 <= k < |UnplacedIds(inPlay)| ==> PieceActions(inPlay)[k] == BinaryName(UnplacedIds(inPlay)[k])
  {
    var ids := UnplacedIds(inPlay);
    UnplacedBelowSpec(inPlay, PieceCount);
    assert BinaryName(0) == "00000";
    if |ids| == PieceCount {
      AllUnplacedWhenNoneCounted(inPlay);
    } else if forall id :: IsId(id) ==> !inPlay[id] {
      PlacedCountNone(inPlay, PieceCount);
    }
  }

  /** When no piece counts as placed, none is in play. */
  lemma AllUnplacedWhenNoneCounted(inPlay: seq<bool>)
    requires |inPlay| == PieceCount && PlacedCount(inPlay, PieceCount) == 0
    ensures forall id :: IsId(id) ==> !inPlay[id]
  {
    forall id | IsId(id) ensures !inPlay[id] {
      AllCountedUnplaced(inPlay, PieceCount, id);
    }
  }

  /** When no piece below n counts as placed, none below n is in play. */
  lemma {:induction false} AllCountedUnplaced(inPlay: seq<bool>, n: int, id: int)
    requires 0 <= id < n <= |inPlay| && PlacedCount(inPlay, n) == 0
    ensures !inPlay[id]
  {
    PlacedCountBelow(inPlay, n - 1);
    if id < n - 1 {
      AllCountedUnplaced(inPlay, n - 1, id);
    }
  }

  // ---------------------------------------------------------------------
  // The actions of a SelectMoveNode (evident intent, see SelectMove)
  // ---------------------------------------------------------------------

  /** The empty cells (r, c) of row r with c < n, left to right. */
  function EmptyInRow(g: Grid, r: int, n: int): (cells: seq<Cell>)
    requires IsGrid(g) && 0 <= r < Size && 0 <= n <= Size
    ensures forall k :: 0 <= k < |cells| ==> cells[k].0 == r && 0 <= cells[k].1 < n
  {
    if n == 0 then [] else EmptyInRow(g, r, n - 1) + (if g[r][n - 1].None? then [(r, n - 1)] else [])
  }

  /** The empty cells of the rows below m, in row-major order. */
  function EmptyInRowsBelow(g: Grid, m: int): (cells: seq<Cell>)
    requires IsGrid(g) && 0 <= m <= Size
    ensures forall k :: 0 <= k < |cells| ==> 0 <= cells[k].0 < m && 0 <= cells[k].1 < Size
  {
    if m == 0 then [] else EmptyInRowsBelow(g, m - 1) + EmptyInRow(g, m - 1, Size)
  }

  /** The empty cells of the grid in row-major order. */
  function EmptyCells(g: Grid): seq<Cell>
    requires IsGrid(g)
  {
    EmptyInRowsBelow(g, Size)
  }

  lemma {:induction false} EmptyInRowMembers(g: Grid, r: int, n: int)
    requires IsGrid(g) && 0 <= r < Size && 0 <= n <= Size
    ensures forall cell :: cell in EmptyInRow(g, r, n) <==> cell.0 == r && 0 <= cell.1 < n && g[r][cell.1].None?
  {
    if n > 0 {
      EmptyInRowMembers(g, r, n - 1);
      var front, back := EmptyInRow(g, r, n - 1), if g[r][n - 1].None? then [(r, n - 1)] else [];
      forall cell ensures cell in front + back <==> cell in front || cell in back {
      }
    }
  }

  lemma {:induction false} EmptyInRowCount(g: Grid, r: int, n: int)
    requires IsGrid(g) && 0 <= r < Size && 0 <= n <= Size
    ensures |EmptyInRow(g, r, n)| == EmptyInLine(g[r], n)
  {
    if n > 0 {
      EmptyInRowCount(g, r, n - 1);
    }
  }

  lemma EmptyInRowsBelowSpec(g: Grid, m: int)
    requires IsGrid(g) && 0 <= m <= Size
    ensures var cells := EmptyInRowsBelow(g, m);
      (forall cell :: cell in cells <==> 0 <= cell.0 < m && 0 <= cell.1 < Size && g[cell.0][cell.1].None?) &&
      (forall j, k :: 0 <= j < k < |cells| ==> Before(cells[j], cells[k])) &&
      |cells| == EmptyInRows(g, m)
  {
    EmptyInRowsBelowMembers(g, m);
    EmptyInRowsBelowOrdered(g, m);
    EmptyInRowsBelowCount(g, m);
  }

  lemma {:induction false} EmptyInRowsBelowMembers(g: Grid, m: int)
    requires IsGrid(g) && 0 <= m <= Size
    ensures forall cell :: cell in EmptyInRowsBelow(g, m) <==> 0 <= cell.0 < m && 0 <= cell.1 < Size && g[cell.0][cell.1].None?
  {
    if m > 0 {
      EmptyInRowsBelowMembers(g, m - 1);
      EmptyInRowMembers(g, m - 1, Size);
      var front, back := EmptyInRowsBelow(g, m - 1), EmptyInRow(g, m - 1, Size);
      forall cell ensures cell in front + back <==> cell in front || cell in back {
      }
    }
  }

  /** The cells are in strictly increasing row-major order. */
  predicate Ascending(cells: seq<Cell>) {
    forall j, k :: 0 <= j < k < |cells| ==> Before(cells[j], cells[k])
  }

  /** Two ascending runs, every cell of the first before every cell of the second, make one. */
  lemma AscendingConcat(front: seq<Cell>, back: seq<Cell>)
    requires Ascending(front) && Ascending(back)
    requires forall j, k :: 0 <= j < |front| && 0 <= k < |back| ==> Before(front[j], back[k])
    ensures Ascending(front + back)
  {
    forall j, k | 0 <= j < k < |front + back| ensures Before((front + back)[j], (front + back)[k]) {
      if k < |front| {
        assert (front + back)[j] == front[j] && (front + back)[k] == front[k];
      } else if j < |front| {
        assert (front + back)[j] == front[j] && (front + back)[k] == back[k - |front|];
      } else {
        assert (front + back)[j] == back[j - |front|] && (front + back)[k] == back[k - |front|];
      }
    }
  }

  lemma {:induction false} EmptyInRowOrdered(g: Grid, r: int, n: int)
    requires IsGrid(g) && 0 <= r < Size && 0 <= n <= Size
    ensures Ascending(EmptyInRow(g, r, n))
  {
    if n > 0 {
      EmptyInRowOrdered(g, r, n - 1);
      AscendingConcat(EmptyInRow(g, r, n - 1), if g[r][n - 1].None? then [(r, n - 1)] else []);
    }
  }

  lemma {:induction false} EmptyInRowsBelowOrdered(g: Grid, m: int)
    requires IsGrid(g) && 0 <= m <= Size
    ensures Ascending(EmptyInRowsBelow(g, m))
  {
    if m > 0 {
      EmptyInRowsBelowOrdered(g, m - 1);
      EmptyInRowOrdered(g, m - 1, Size);
      AscendingConcat(EmptyInRowsBelow(g, m - 1), EmptyInRow(g, m - 1, Size));
    }
  }

  lemma {:induction false} EmptyInRowsBelowCount(g: Grid, m: int)
    requires IsGrid(g) && 0 <= m <= Size
    ensures |EmptyInRowsBelow(g, m)| == EmptyInRows(g, m)
  {
    if m > 0 {
      EmptyInRowsBelowCount(g, m - 1);
      EmptyInRowCount(g, m - 1, Size);
    }
  }

  /**
   * The empty cells of the grid, each once, in row-major order, one for each
   * empty cell counted by EmptyCount.
   */
  lemma EmptyCellsSpec(g: Grid)
    requires IsGrid(g)
    ensures forall cell :: cell in EmptyCells(g) <==> InRange(cell.0, cell.1) && g[cell.0][cell.1].None?
    ensures forall j, k :: 0 <= j < k < |EmptyCells(g)| ==> Before(EmptyCells(g)[j], EmptyCells(g)[k])
    ensures |EmptyCells(g)| == EmptyCount(g)
  {
    EmptyInRowsBelowSpec(g, Size);
  }

  /**
   * The remainingMoves of a new SelectMoveNode, by the evident intent of its
   * constructor: "row,column" of every empty cell in row-major order, except
   * that on an empty grid the only action is "2,2", the centre.
   */
  function MoveActions(g: Grid): seq<string>
    requires IsGrid(g)
  {
    var cells := EmptyCells(g);
    if |cells| == Size * Size then ["2,2"]
    else seq(|cells|, k requires 0 <= k < |cells| => Server.CellText(cells[k]))
  }

  /** An action that chooseMove and parseMove read as an empty cell of the grid. */
  predicate NamesEmptyCell(g: Grid, a: string)
    requires IsGrid(g)
  {
    var move := Server.ReadMove(Some(a));
    move.Some? && InRange(move.value.0, move.value.1) && g[move.value.0][move.value.1].None?
  }

  /** Every move action reads back as an empty cell of the grid. */
  lemma MoveActionsNameEmptyCells(g: Grid)
    requires IsGrid(g)
    ensures forall k :: 0 <= k < |MoveActions(g)| ==> NamesEmptyCell(g, MoveActions(g)[k])
  {
    var cells := EmptyCells(g);
    EmptyCellsSpec(g);
    if |cells| == Size * Size {
      assert Server.CellText((2, 2)) == "2,2";
      Server.ReadMoveText((2, 2));
      EmptyInRowsAll(g, Size);
    } else {
      forall k | 0 <= k < |cells| ensures NamesEmptyCell(g, MoveActions(g)[k]) {
        assert cells[k] in cells;
        Server.ReadMoveText(cells[k]);
      }
    }
  }

  /** Unless the grid is empty, the move actions are the empty cells, one each, in row-major order. */
  lemma MoveActionsCover(g: Grid)
    requires IsGrid(g)
    ensures EmptyCount(g) == Size * Size ==> MoveActions(g) == ["2,2"]
    ensures EmptyCount(g) < Size * Size ==>
      |MoveActions(g)| == EmptyCount(g) &&
      forall k :: 0 <= k < EmptyCount(g) ==> MoveActions(g)[k] == Server.CellText(EmptyCells(g)[k])
  {
    EmptyCellsSpec(g);
  }

  /** A line whose first n cells are all counted empty has all of them empty. */
  lemma {:induction false} EmptyInLineAll(line: Line, n: int)
    requires 0 <= n <= |line| && EmptyInLine(line, n) == n
    ensures forall i :: 0 <= i < n ==> line[i].None?
  {
    if n > 0 {
      EmptyInLineBounds(line, n - 1);
      EmptyInLineAll(line, n - 1);
    }
  }

  /** Rows whose cells are all counted empty are all empty. */
  lemma {:induction false} EmptyInRowsAll(g: Grid, m: int)
    requires IsGrid(g) && 0 <= m <= Size && EmptyInRows(g, m) == m * Size
    ensures forall r, c :: 0 <= r < m && 0 <= c < Size ==> g[r][c].None?
  {
    if m > 0 {
      EmptyInRowsBounds(g, m - 1);
      EmptyInLineBounds(g[m - 1], Size);
      EmptyInRowsAll(g, m - 1);
      EmptyInLineAll(g[m - 1], Size);
    }
  }

  // ---------------------------------------------------------------------
  // playGame
  // ---------------------------------------------------------------------

  /** insertPieceOnBoard(r, c, piece) would place the piece. */
  predicate Placeable(p: Position, piece: int)
    requires IsPosition(p)
  {
    IsId(piece) && !p.inPlay[piece]
  }

  /** The end of one pass through the playGame loop: the game is over, or goes on with a piece. */
  datatype Step = Over(score: int, next: nat, final: Position) | Continue(piece: int, next: nat, position: Position)

  /** What playGame returns, with the next unused draw and the board it leaves. */
  datatype Outcome = Outcome(score: int, next: nat, final: Position)

  /**
   * One pass through the playGame loop, with the draws from number at on:
   * randomMove, insertPieceOnBoard, isWin (then 1 for player1, else -1),
   * checkIfBoardIsFull (then 0), and randomPieceSelection for the next turn.
   */
  ghost function PlayStep(p: Position, piece: int, player1: bool, draws: Draws, at: nat): Step
    requires IsPosition(p)
  {
    var (move, afterMove) := RandomEmptyCell(p.grid, draws, at, FallbackAttempts);
    var q := Insert(p, move.0, move.1, piece);
    if WinsThrough(q.grid, move.0, move.1) then Over(if player1 then 1 else -1, afterMove, q)
    else if IsFull(q.grid) then Over(0, afterMove, q)
    else
      var (nextPiece, afterPiece) := RandomUnplaced(q.inPlay, draws, afterMove, FallbackAttempts);
      Continue(nextPiece, afterPiece, q)
  }

  /**
   * A pass either places its piece on an empty cell or, when the piece cannot
   * be placed, leaves the board as it is; a game that goes on does so with a
   * piece that can be placed. So the empty cells, and then the passes, run out.
   */
  lemma PlayStepProgress(p: Position, piece: int, player1: bool, draws: Draws, at: nat)
    requires IsPosition(p) && Tallied(p)
    ensures var s := PlayStep(p, piece, player1, draws, at);
      s.Continue? ==>
        IsPosition(s.position) && Tallied(s.position) && Placeable(s.position, s.piece) &&
        0 <= EmptyCount(s.position.grid) &&
        EmptyCount(s.position.grid) + (if Placeable(p, piece) then 1 else 0) == EmptyCount(p.grid)
  {
    var (move, afterMove) := RandomEmptyCell(p.grid, draws, at, FallbackAttempts);
    var q := Insert(p, move.0, move.1, piece);
    if !IsFull(p.grid) && Placeable(p, piece) {
      InsertCounts(p, move.0, move.1, piece);
    }
    EmptyCountFull(q.grid);
    if !IsFull(q.grid) {
      UnplacedPieceExists(q);
    }
  }

  /**
   * playGame from position p with the given piece to place: passes until one
   * is over. Tallied(p) rules out a board with empty cells but no piece left,
   * on which the loop would not end.
   */
  ghost function Playout(p: Position, piece: int, player1: bool, draws: Draws, at: nat): Outcome
    requires IsPosition(p) && Tallied(p)
    decreases EmptyCount(p.grid), if Placeable(p, piece) then 0 else 1
  {
    PlayStepProgress(p, piece, player1, draws, at);
    match PlayStep(p, piece, player1, draws, at)
    case Over(score, next, final) => Outcome(score, next, final)
    case Continue(nextPiece, next, q) => Playout(q, nextPiece, !player1, draws, next)
  }

  /** The number of passes playGame makes. */
  ghost function PlayoutRounds(p: Position, piece: int, player1: bool, draws: Draws, at: nat): nat
    requires IsPosition(p) && Tallied(p)
    decreases EmptyCount(p.grid), if Placeable(p, piece) then 0 else 1
  {
    PlayStepProgress(p, piece, player1, draws, at);
    match PlayStep(p, piece, player1, draws, at)
    case Over(_, _, _) => 1
    case Continue(nextPiece, next, q) => 1 + PlayoutRounds(q, nextPiece, !player1, draws, next)
  }

  /**
   * One pass keeps every placed piece and the coherence of the board, and
   * a game it ends has score 1, -1 on a winning line or 0 on a full board
   * (with no winning line when there was none before it).
   */
  lemma PlayStepFacts(p: Position, piece: int, player1: bool, draws: Draws, at: nat)
    requires IsPosition(p)
    ensures var s := PlayStep(p, piece, player1, draws, at);
      var q := if s.Over? then s.final else s.position;
      IsPosition(q) && KeepsPlaced(p.grid, q.grid) && at <= s.next &&
      (Coherent(p) ==> Coherent(q)) &&
      (!HasWinningLine(p.grid) && s.Continue? ==> !HasWinningLine(q.grid)) &&
      (s.Over? ==>
        (s.score == 1 || s.score == 0 || s.score == -1) &&
        (s.score == 0 ==> IsFull(q.grid) && (!HasWinningLine(p.grid) ==> !HasWinningLine(q.grid))) &&
        (s.score != 0 ==> HasWinningLine(q.grid)) &&
        (s.score == 1 <==> s.score != 0 && player1))
  {
    var (move, afterMove) := RandomEmptyCell(p.grid, draws, at, FallbackAttempts);
    var q := Insert(p, move.0, move.1, piece);
    if WinsThrough(q.grid, move.0, move.1) {
      WinsThroughIsWin(q.grid, move.0, move.1);
    }
    if CanInsert(p, move.0, move.1, piece) {
      assert q.grid == Place(p.grid, move.0, move.1, piece);
      if !HasWinningLine(p.grid) {
        WinThroughPlacement(p.grid, move.0, move.1, piece);
      }
      if Coherent(p) {
        InsertKeepsCoherent(p, move.0, move.1, piece);
      }
    } else if !HasWinningLine(p.grid) {
      assert !DiagonalsWin(p.grid);
    }
  }

  /**
   * playGame ends with 1, 0 or -1; 0 only on a full board, 1 and -1 only on
   * a board with a winning line; a start without a winning line can end
   * with 0 only without one. Every piece already placed stays, and a
   * coherent board stays coherent, since every placement is on an empty cell.
   */
  lemma {:induction false} PlayoutOutcome(p: Position, piece: int, player1: bool, draws: Draws, at: nat)
    requires IsPosition(p) && Tallied(p)
    ensures var o := Playout(p, piece, player1, draws, at);
      IsPosition(o.final) && (o.score == 1 || o.score == 0 || o.score == -1) &&
      (o.score == 0 ==> IsFull(o.final.grid)) &&
      (o.score != 0 ==> HasWinningLine(o.final.grid)) &&
      (!HasWinningLine(p.grid) ==> (o.score == 0 <==> !HasWinningLine(o.final.grid))) &&
      KeepsPlaced(p.grid, o.final.grid) && (Coherent(p) ==> Coherent(o.final)) && at <= o.next
    decreases EmptyCount(p.grid), if Placeable(p, piece) then 0 else 1
  {
    PlayStepProgress(p, piece, player1, draws, at);
    PlayStepFacts(p, piece, player1, draws, at);
    match PlayStep(p, piece, player1, draws, at)
    case Over(_, _, _) =>
    case Continue(nextPiece, next, q) =>
      PlayoutOutcome(q, nextPiece, !player1, draws, next);
      KeepsPlacedTransitive(p.grid, q.grid, Playout(q, nextPiece, !player1, draws, next).final.grid);
  }

  /** player1 made the last of the given number of passes, the flag turning after each one. */
  predicate MovesLast(player1: bool, rounds: nat) {
    player1 == (rounds % 2 == 1)
  }

  /** One more pass at the front hands the last move to the other flag. */
  lemma MovesLastTurns(player1: bool, rest: nat)
    ensures MovesLast(player1, rest + 1) <==> MovesLast(!player1, rest)
  {
    Parity(rest);
  }

  /**
   * The player who placed last wins: 1 when player1 made the last pass (an
   * odd number of passes, as the flag turns after each one), -1 otherwise.
   */
  lemma {:induction false} PlayoutWinner(p: Position, piece: int, player1: bool, draws: Draws, at: nat)
    requires IsPosition(p) && Tallied(p)
    ensures var o := Playout(p, piece, player1, draws, at);
      o.score != 0 ==> (o.score == 1 <==> MovesLast(player1, PlayoutRounds(p, piece, player1, draws, at)))
    decreases EmptyCount(p.grid), if Placeable(p, piece) then 0 else 1
  {
    PlayStepProgress(p, piece, player1, draws, at);
    match PlayStep(p, piece, player1, draws, at)
    case Over(score, next, final) =>
      assert Playout(p, piece, player1, draws, at).score == score;
      assert PlayoutRounds(p, piece, player1, draws, at) == 1;
    case Continue(nextPiece, next, q) =>
      PlayoutWinner(q, nextPiece, !player1, draws, next);
      assert Playout(p, piece, player1, draws, at) == Playout(q, nextPiece, !player1, draws, next);
      var rest := PlayoutRounds(q, nextPiece, !player1, draws, next);
      assert PlayoutRounds(p, piece, player1, draws, at) == 1 + rest;
      MovesLastTurns(player1, rest);
  }

  /** One more pass turns the parity. */
  lemma Parity(n: nat)
    ensures (n + 1) % 2 == 1 <==> n % 2 != 1
  {
    var h := n / 2;
    assert n == 2 * h + n % 2;
    if n % 2 == 0 {
      assert n + 1 == 2 * h + 1;
    } else {
      assert n + 1 == 2 * (h + 1);
    }
  }

  /**
   * There are at most as many passes as empty cells, plus one for a
   * starting piece that cannot be placed (or a full board).
   */
  lemma {:induction false} PlayoutRoundsBound(p: Position, piece: int, player1: bool, draws: Draws, at: nat)
    requires IsPosition(p) && Tallied(p)
    ensures 1 <= PlayoutRounds(p, piece, player1, draws, at) <=
      EmptyCount(p.grid) + (if Placeable(p, piece) && !IsFull(p.grid) then 0 else 1)
    decreases EmptyCount(p.grid), if Placeable(p, piece) then 0 else 1
  {
    PlayStepProgress(p, piece, player1, draws, at);
    EmptyCountFull(p.grid);
    match PlayStep(p, piece, player1, draws, at)
    case Over(_, _, _) =>
    case Continue(nextPiece, next, q) =>
      PlayoutRoundsBound(q, nextPiece, !player1, draws, next);
      EmptyCountFull(q.grid);
      assert PlayoutRounds(p, piece, player1, draws, at) == 1 + PlayoutRounds(q, nextPiece, !player1, draws, next);
  }
}
