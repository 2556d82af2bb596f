/**
 * QuartoPlayerAgent.java: the helpers of the Monte Carlo tree search agent.
 * The random playout (defaultPolicy, playGame and the pickers) is proved
 * against Playout.Playout; the nodes of the search tree keep their untried
 * actions as the lists of Playout.PieceActions and Playout.MoveActions; the
 * board helpers (areEqualBoards, rotateBoard, the semi-random choices) are
 * proved against the value model of Rules.
 */
module PlayerAgent {
  import opened Java
  import opened Rules
  import opened Board
  import opened Piece
  import opened Playout
  import Server
  import SemiRandomAgent

  // ---------------------------------------------------------------------
  // The random playout
  // ---------------------------------------------------------------------

  /** new QuartoBoard(board): a fresh board with the same position; the board itself is not touched. */
  method CopyOf(board: QuartoBoard, ghost p: Position) returns (copyBoard: QuartoBoard)
    requires board.Valid() && board.Position() == p
    ensures board.Valid() && board.Position() == p
    ensures fresh(copyBoard) && fresh(copyBoard.board) && copyBoard.Valid() && copyBoard.Position() == p
  {
    copyBoard := new QuartoBoard.Copy(board);
  }

  /**
   * randomMove: chooseRandomPositionNotPlayed(100) on a copy of the board
   * (the source calls it by a misspelled name). The piece is not looked at.
   */
  method RandomMove(pieceID: int, board: QuartoBoard, ghost p: Position, draws: Draws, at: nat) returns (move: Cell, next: nat)
    requires board.Valid() && board.Position() == p
    ensures board.Valid() && board.Position() == p
    ensures move == RandomEmptyCell(p.grid, draws, at, FallbackAttempts).0
    ensures next == RandomEmptyCell(p.grid, draws, at, FallbackAttempts).1
  {
    var copyBoard := CopyOf(board, p);
    move, next := copyBoard.ChooseRandomPositionNotPlayed(FallbackAttempts, draws, at);
    assert board.Position() == p;
  }

  /** randomPieceSelection: chooseRandomPieceNotPlayed(100) on a copy of the board. */
  method RandomPieceSelection(board: QuartoBoard, ghost p: Position, draws: Draws, at: nat) returns (pieceID: int, next: nat)
    requires board.Valid() && board.Position() == p
    ensures board.Valid() && board.Position() == p
    ensures pieceID == RandomUnplaced(p.inPlay, draws, at, FallbackAttempts).0
    ensures next == RandomUnplaced(p.inPlay, draws, at, FallbackAttempts).1
  {
    var copyBoard := CopyOf(board, p);
    pieceID, next := copyBoard.ChooseRandomPieceNotPlayed(FallbackAttempts, draws, at);
    assert board.Position() == p;
  }

  /** isWin: checkRow(row) || checkColumn(col) || checkDiagonals(). */
  method IsWin(board: QuartoBoard, ghost p: Position, row: int, col: int) returns (win: bool)
    requires board.Valid() && board.Position() == p
    ensures board.Valid() && board.Position() == p
    ensures win == WinsThrough(p.grid, row, col)
  {
    win := board.CheckRow(row);
    if !win {
      win := board.CheckColumn(col);
    }
    if !win {
      win := board.CheckDiagonals();
    }
  }

  /**
   * One pass through the loop of playGame on the board itself: a random
   * move, the placement, then 1 or -1 on a win for player1 or the other
   * player, 0 on a full board, or else the random piece for the next pass.
   * q is the board after the pass.
   */
  method PlayRound(board: QuartoBoard, ghost p: Position, piece: int, player1: bool, draws: Draws, at: nat)
    returns (over: bool, score: int, nextPiece: int, next: nat, ghost q: Position)
    requires board.Valid() && board.Position() == p
    modifies board.board, board.pieces[..]
    ensures board.Valid() && board.Position() == q
    ensures over == PlayStep(p, piece, player1, draws, at).Over?
    ensures next == PlayStep(p, piece, player1, draws, at).next
    ensures over ==> score == PlayStep(p, piece, player1, draws, at).score && q == PlayStep(p, piece, player1, draws, at).final
    ensures !over ==> nextPiece == PlayStep(p, piece, player1, draws, at).piece && q == PlayStep(p, piece, player1, draws, at).position
  {
    var move;
    move, next := RandomMove(piece, board, p, draws, at);
    var inserted := board.InsertPieceOnBoard(move.0, move.1, piece);
    q := Insert(p, move.0, move.1, piece);
    over, score, nextPiece, next := CloseRound(board, q, move, piece, player1, draws, next);
  }

  /**
   * The end of a pass, after the placement on move: isWin, then
   * checkIfBoardIsFull, then randomPieceSelection.
   */
  method CloseRound(board: QuartoBoard, ghost q: Position, move: Cell, piece: int, player1: bool, draws: Draws, at: nat)
    returns (over: bool, score: int, nextPiece: int, next: nat)
    requires board.Valid() && board.Position() == q
    ensures board.Valid() && board.Position() == q
    ensures over == (WinsThrough(q.grid, move.0, move.1) || IsFull(q.grid))
    ensures over ==> score == (if WinsThrough(q.grid, move.0, move.1) then (if player1 then 1 else -1) else 0) && next == at
    ensures !over ==> nextPiece == RandomUnplaced(q.inPlay, draws, at, FallbackAttempts).0
    ensures !over ==> next == RandomUnplaced(q.inPlay, draws, at, FallbackAttempts).1
  {
    var win := IsWin(board, q, move.0, move.1);
    if win {
      if player1 {
        return true, 1, piece, at;
      }
      return true, -1, piece, at;
    }
    var full := board.CheckIfBoardIsFull();
    if full {
      return true, 0, piece, at;
    }
    assert board.Position() == q;
    nextPiece, next := RandomPieceSelection(board, q, draws, at);
    over, score := false, 0;
  }

  /**
   * playGame: passes of PlayRound, turning player1 after each one, until a
   * pass ends the game. It returns Playout's score, leaves Playout's final
   * position on the board and reads the draws Playout reads. On a board
   * where every piece in play is on a cell (Tallied) the loop ends; by
   * PlayoutOutcome the score is then 1, 0 or -1, 0 only on a full board, and
   * by PlayoutRoundsBound there are at most as many passes as empty cells.
   */
  method PlayGame(board: QuartoBoard, ghost p0: Position, startingPiece: int, player1: bool, draws: Draws, at: nat)
    returns (score: int, next: nat)
    requires board.Valid() && board.Position() == p0 && Tallied(p0)
    modifies board.board, board.pieces[..]
    ensures board.Valid()
    ensures score == Playout.Playout(p0, startingPiece, player1, draws, at).score
    ensures next == Playout.Playout(p0, startingPiece, player1, draws, at).next
    ensures board.Position() == Playout.Playout(p0, startingPiece, player1, draws, at).final
  {
    ghost var target := Playout.Playout(p0, startingPiece, player1, draws, at);
    ghost var p := p0;
    var piece, player, cursor := startingPiece, player1, at;
    while true
      invariant board.Valid() && board.Position() == p && IsPosition(p) && Tallied(p)
      invariant Playout.Playout(p, piece, player, draws, cursor) == target
      decreases EmptyCount(p.grid), if Placeable(p, piece) then 0 else 1
    {
      PlayStepProgress(p, piece, player, draws, cursor);
      var over, roundScore, nextPiece, afterRound;
      ghost var q;
      over, roundScore, nextPiece, afterRound, q := PlayRound(board, p, piece, player, draws, cursor);
      if over {
        return roundScore, afterRound;
      }
      p, piece, cursor := q, nextPiece, afterRound;
      player := !player;
    }
  }

  /**
   * defaultPolicy: a playout on a copy of the board. Without a piece the
   * playout starts with a random piece and player1 false, with a piece it
   * starts with that piece and player1 true; the player1 argument is not
   * looked at. The board itself is not touched.
   */
  method DefaultPolicy(board: QuartoBoard, ghost p: Position, piece: Option<int>, player1: bool, draws: Draws, at: nat)
    returns (score: int, next: nat)
    requires board.Valid() && board.Position() == p && Tallied(p)
    ensures piece.Some? ==>
      score == Playout.Playout(p, piece.value, true, draws, at).score &&
      next == Playout.Playout(p, piece.value, true, draws, at).next
    ensures piece.None? ==>
      var first := RandomUnplaced(p.inPlay, draws, at, FallbackAttempts);
      score == Playout.Playout(p, first.0, false, draws, first.1).score &&
      next == Playout.Playout(p, first.0, false, draws, first.1).next
  {
    var copyBoard := new QuartoBoard.Copy(board);
    if piece.None? {
      var first, afterFirst := RandomPieceSelection(copyBoard, p, draws, at);
      score, next := PlayGame(copyBoard, p, first, false, draws, afterFirst);
    } else {
      score, next := PlayGame(copyBoard, p, piece.value, true, draws, at);
    }
  }

  // ---------------------------------------------------------------------
  // The actions of the search tree
  // ---------------------------------------------------------------------

  /** getPossiblePieces: the ids of the pieces not on the board, ascending. */
  method GetPossiblePieces(board: QuartoBoard) returns (pieces: seq<int>)
    requires board.Valid()
    ensures pieces == UnplacedIds(board.InPlay())
  {
    pieces := [];
    for i := 0 to board.pieces.Length
      invariant pieces == UnplacedBelow(board.InPlay(), i)
    {
      var onBoard := board.IsPieceOnBoard(i);
      if !onBoard {
        pieces := pieces + [i];
      }
    }
  }

  /**
   * The empty cells in row-major order: the evident intent of the
   * getPossiblePieces(board, piece) that the SelectMoveNode constructor
   * calls and that the source does not define.
   */
  method PossibleMoves(board: QuartoBoard) returns (movesList: seq<Cell>)
    requires board.Valid()
    ensures movesList == EmptyCells(board.Grid())
  {
    movesList := [];
    for row := 0 to Size
      invariant movesList == EmptyInRowsBelow(board.Grid(), row)
    {
      for col := 0 to Size
        invariant movesList == EmptyInRowsBelow(board.Grid(), row) + EmptyInRow(board.Grid(), row, col)
      {
        var taken := board.IsSpaceTaken(row, col);
        if !taken {
          movesList := movesList + [(row, col)];
        }
      }
    }
  }

  /** parsePiece: Integer.parseInt(piece, 2), which throws on a string that is not a number. */
  function ParsePiece(piece: string): (pieceID: int)
    requires ParseInt(piece, 2).Some?
    ensures IsInt(pieceID)
  {
    ParseInt(piece, 2).value
  }

  /** The actions of a SelectPieceNode read back as the ids they name. */
  lemma ParsePieceName(pieceID: int)
    requires IsId(pieceID)
    ensures ParseInt(BinaryName(pieceID), 2).Some? && ParsePiece(BinaryName(pieceID)) == pieceID
  {
    ParseBinaryName(pieceID);
  }

  /**
   * parseMove: split at ',' and the first two parts read in base 10. The
   * source declares the result int although it returns an int[]; the
   * evident intent, a cell, is modelled.
   */
  function ParseMove(move: string): (cell: Cell)
    requires Server.ReadMove(Some(move)).Some?
    ensures IsInt(cell.0) && IsInt(cell.1)
  {
    Server.ReadMove(Some(move)).value
  }

  /** The actions of a SelectMoveNode read back as the cells they name. */
  lemma ParseMoveText(cell: Cell)
    requires IsInt(cell.0) && IsInt(cell.1)
    ensures Server.ReadMove(Some(Server.CellText(cell))).Some? && ParseMove(Server.CellText(cell)) == cell
  {
    Server.ReadMoveText(cell);
  }

  // ---------------------------------------------------------------------
  // The nodes of the search tree
  // ---------------------------------------------------------------------

  /** The subclass of a node: SelectPieceNode, SelectMoveNode or TerminatingNode with its value. */
  datatype NodeKind = SelectPieceNode | SelectMoveNode | TerminatingNode(value: int)

  class Node {
    var children: seq<Node>
    const board: QuartoBoard
    var action: Option<string>
    var remainingMoves: seq<string>
    var n: int
    var q: int
    var parent: Node?
    var player: bool
    const kind: NodeKind

    /** What the Node constructor leaves: no children, action or parent, zero counts, player true. */
    predicate Blank()
      reads this
    {
      children == [] && action.None? && n == 0 && q == 0 && parent == null && player
    }

    /**
     * The SelectPieceNode constructor: the untried actions are the binary
     * names of the pieces not on the board, or only "00000" when no piece
     * is on it.
     */
    constructor SelectPiece(board: QuartoBoard)
      requires board.Valid()
      ensures this.board == board && kind == SelectPieceNode && Blank()
      ensures remainingMoves == PieceActions(board.InPlay())
    {
      var moves := GetPossiblePieces(board);
      var actions: seq<string> := [];
      if |moves| == PieceCount {
        actions := ["00000"];
      } else {
        for k := 0 to |moves|
          invariant |actions| == k && forall j :: 0 <= j < k ==> actions[j] == BinaryName(moves[j])
        {
          actions := actions + [BinaryName(moves[k])];
        }
      }
      this.board := board;
      kind := SelectPieceNode;
      children, action, remainingMoves := [], None, actions;
      n, q, parent, player := 0, 0, null, true;
    }

    /**
     * The SelectMoveNode constructor, by its evident intent (as written it
     * names an undefined piece and getPossiblePieces(board, piece)): the
     * untried actions are "row,column" of the empty cells in row-major
     * order, or only "2,2" on an empty board.
     */
    constructor SelectMove(board: QuartoBoard)
      requires board.Valid()
      ensures this.board == board && kind == SelectMoveNode && Blank()
      ensures remainingMoves == MoveActions(board.Grid())
    {
      var movesList := PossibleMoves(board);
      var actions: seq<string> := [];
      if |movesList| == Size * Size {
        actions := ["2,2"];
      } else {
        for k := 0 to |movesList|
          invariant |actions| == k && forall j :: 0 <= j < k ==> actions[j] == Server.CellText(movesList[j])
        {
          actions := actions + [Server.CellText(movesList[k])];
        }
      }
      this.board := board;
      kind := SelectMoveNode;
      children, action, remainingMoves := [], None, actions;
      n, q, parent, player := 0, 0, null, true;
    }

    /** The TerminatingNode constructor: a leaf with its value and nothing to try. */
    constructor Terminating(board: QuartoBoard, value: int)
      ensures this.board == board && kind == TerminatingNode(value) && Blank() && remainingMoves == []
    {
      this.board := board;
      kind := TerminatingNode(value);
      children, action, remainingMoves := [], None, [];
      n, q, parent, player := 0, 0, null, true;
    }

    /**
     * Node.addChild: the child is appended and gets the action, this node
     * as parent and this node's player flag; the first occurrence of the
     * action leaves remainingMoves (ArrayList.remove). Nothing else changes.
     */
    method BaseAddChild(child: Node, action: string)
      modifies this, child
      ensures children == old(children) + [child]
      ensures child.action == Some(action) && child.parent == this && child.player == old(player)
      ensures remainingMoves == RemoveFirst(old(remainingMoves), action)
      ensures n == old(n) && q == old(q) && child.n == old(child.n) && child.q == old(child.q)
      ensures child != this ==>
        this.action == old(this.action) && parent == old(parent) && player == old(player) &&
        child.children == old(child.children) && child.remainingMoves == old(child.remainingMoves)
    {
      children := children + [child];
      child.action := Some(action);
      child.parent := this;
      child.player := child.parent.player;
      remainingMoves := RemoveFirst(remainingMoves, action);
    }

    /**
     * addChild as dispatched on the kind of node: a SelectPieceNode gives
     * the child the opposite player flag (the turn passes with the piece),
     * every other node its own. TerminatingNode only overloads addChild
     * with one parameter, so it is the Node version there.
     */
    method AddChild(child: Node, action: string)
      modifies this, child
      ensures children == old(children) + [child]
      ensures child.action == Some(action) && child.parent == this
      ensures child.player == (if kind.SelectPieceNode? then !old(player) else old(player))
      ensures remainingMoves == RemoveFirst(old(remainingMoves), action)
      ensures n == old(n) && q == old(q) && child.n == old(child.n) && child.q == old(child.q)
      ensures child != this ==>
        this.action == old(this.action) && parent == old(parent) && player == old(player) &&
        child.children == old(child.children) && child.remainingMoves == old(child.remainingMoves)
    {
      BaseAddChild(child, action);
      if kind.SelectPieceNode? {
        child.player := !child.parent.player;
      }
    }
  }

  /**
   * The kind of child expand makes after placing a piece on move: a
   * TerminatingNode of value 1 on a win through the cell (the source sets
   * -1 for node.player but then overwrites it, having no else), of value 0
   * on a full board, and a SelectPieceNode otherwise.
   */
  ghost function MoveChildKind(q: Position, move: Cell): NodeKind
    requires IsPosition(q)
  {
    if WinsThrough(q.grid, move.0, move.1) then TerminatingNode(1)
    else if IsFull(q.grid) then TerminatingNode(0)
    else SelectPieceNode
  }

  /**
   * A terminal child of value 1 stands on a winning board, one of value 0
   * on a full board, and a SelectPieceNode child of a board where every
   * piece in play is on a cell has a piece left to try.
   */
  lemma MoveChildKindMeans(q: Position, move: Cell)
    requires IsPosition(q)
    ensures MoveChildKind(q, move) == TerminatingNode(1) ==> HasWinningLine(q.grid)
    ensures MoveChildKind(q, move) == TerminatingNode(0) ==> IsFull(q.grid) && !WinsThrough(q.grid, move.0, move.1)
    ensures MoveChildKind(q, move) == SelectPieceNode && Tallied(q) ==> |PieceActions(q.inPlay)| > 0
  {
    if WinsThrough(q.grid, move.0, move.1) {
      WinsThroughIsWin(q.grid, move.0, move.1);
    } else if !IsFull(q.grid) && Tallied(q) {
      UnplacedPieceExists(q);
      UnplacedBelowSpec(q.inPlay, PieceCount);
      var id :| IsId(id) && !q.inPlay[id];
      assert id in UnplacedIds(q.inPlay);
    }
  }

  /**
   * The move branch of expand: insertPieceOnBoard on a copy of the board,
   * then isWin and checkIfBoardIsFull decide the child.
   */
  method MoveChild(board: QuartoBoard, ghost p: Position, piece: int, move: Cell, player: bool) returns (child: Node)
    requires board.Valid() && board.Position() == p
    ensures fresh(child) && child.Blank()
    ensures child.board.Valid() && child.board.Position() == Insert(p, move.0, move.1, piece)
    ensures child.kind == MoveChildKind(Insert(p, move.0, move.1, piece), move)
    ensures child.remainingMoves == if child.kind.SelectPieceNode? then PieceActions(Insert(p, move.0, move.1, piece).inPlay) else []
  {
    var copyBoard := new QuartoBoard.Copy(board);
    var inserted := copyBoard.InsertPieceOnBoard(move.0, move.1, piece);
    ghost var q := Insert(p, move.0, move.1, piece);
    var win := IsWin(copyBoard, q, move.0, move.1);
    var full := false;
    if !win {
      full := copyBoard.CheckIfBoardIsFull();
    }
    assert copyBoard.Valid() && copyBoard.Position() == q;
    child := NewMoveChild(copyBoard, q, win, full, player);
  }

  /** The child of the move branch of expand, once isWin and checkIfBoardIsFull are known. */
  method NewMoveChild(copyBoard: QuartoBoard, ghost q: Position, win: bool, full: bool, player: bool) returns (child: Node)
    requires copyBoard.Valid() && copyBoard.Position() == q
    ensures fresh(child) && child.Blank() && child.board == copyBoard
    ensures copyBoard.Valid() && copyBoard.Position() == q
    ensures child.kind == if win then TerminatingNode(1) else if full then TerminatingNode(0) else SelectPieceNode
    ensures child.remainingMoves == if child.kind.SelectPieceNode? then PieceActions(q.inPlay) else []
  {
    if win {
      if player {
        child := new Node.Terminating(copyBoard, -1);
      }
      child := new Node.Terminating(copyBoard, 1);
    } else if full {
      child := new Node.Terminating(copyBoard, 0);
    } else {
      child := new Node.SelectPiece(copyBoard);
    }
  }

  /**
   * The kind of child expand evidently means to make after placing a piece:
   * on a win through the cell, a TerminatingNode of value -1 when node.player
   * holds and 1 otherwise; the rest as in MoveChildKind.
   */
  ghost function IntendedMoveChildKind(q: Position, move: Cell, player: bool): NodeKind
    requires IsPosition(q)
  {
    if WinsThrough(q.grid, move.0, move.1) then TerminatingNode(if player then -1 else 1)
    else MoveChildKind(q, move)
  }

  /**
   * As written, a win reached under node.player gets value 1, not the
   * intended -1: the child kind does not depend on the player.
   */
  lemma MoveChildIgnoresPlayer(q: Position, move: Cell)
    requires IsPosition(q) && WinsThrough(q.grid, move.0, move.1)
    ensures MoveChildKind(q, move) == IntendedMoveChildKind(q, move, false)
    ensures MoveChildKind(q, move) != IntendedMoveChildKind(q, move, true)
  {
  }

  /**
   * The intended kind: a terminal child of nonzero value stands on a winning
   * board, its value is -1 exactly under node.player, 0 only on a full board,
   * and the two players' leaves for the same win have opposite values.
   */
  lemma IntendedMoveChildKindMeans(q: Position, move: Cell, player: bool)
    requires IsPosition(q)
    ensures var k := IntendedMoveChildKind(q, move, player);
      (k.TerminatingNode? && k.value != 0 ==>
        HasWinningLine(q.grid) && (k.value == -1 <==> player) && (k.value == 1 <==> !player)) &&
      (k == TerminatingNode(0) ==> IsFull(q.grid) && !WinsThrough(q.grid, move.0, move.1))
    ensures IntendedMoveChildKind(q, move, player).TerminatingNode? && IntendedMoveChildKind(q, move, player).value != 0 ==>
      IntendedMoveChildKind(q, move, !player).value == -IntendedMoveChildKind(q, move, player).value
  {
    MoveChildKindMeans(q, move);
    if WinsThrough(q.grid, move.0, move.1) {
      WinsThroughIsWin(q.grid, move.0, move.1);
    }
  }

  /** The move branch's child with the evidently intended else: -1 under node.player, else 1. */
  method NewMoveChildCorrected(copyBoard: QuartoBoard, ghost q: Position, ghost move: Cell, win: bool, full: bool, player: bool)
    returns (child: Node)
    requires copyBoard.Valid() && copyBoard.Position() == q
    requires win == WinsThrough(q.grid, move.0, move.1) && (!win ==> full == IsFull(q.grid))
    ensures fresh(child) && child.Blank() && child.board == copyBoard
    ensures child.kind == IntendedMoveChildKind(q, move, player)
  {
    if win {
      if player {
        child := new Node.Terminating(copyBoard, -1);
      } else {
        child := new Node.Terminating(copyBoard, 1);
      }
    } else if full {
      child := new Node.Terminating(copyBoard, 0);
    } else {
      child := new Node.SelectPiece(copyBoard);
    }
  }

  /**
   * expand: the first untried action becomes a child and leaves the list.
   * Below a SelectPieceNode the child is a SelectMoveNode on the same board
   * (with or without symmetry, which only parses the action in vain); below
   * any other node the action is the cell for the node's piece, placed on a
   * copy of the board. A non-terminal child has the actions of its board.
   */
  method Expand(node: Node) returns (child: Node)
    requires node.board.Valid() && |node.remainingMoves| > 0
    requires !node.kind.SelectPieceNode? ==>
      node.action.Some? && ParseInt(node.action.value, 2).Some? && Server.ReadMove(Some(node.remainingMoves[0])).Some?
    modifies node
    ensures fresh(child) && child.parent == node && child.action == Some(old(node.remainingMoves[0]))
    ensures child.n == 0 && child.q == 0 && child.children == []
    ensures node.children == old(node.children) + [child]
    ensures node.remainingMoves == old(node.remainingMoves[1..])
    ensures node.n == old(node.n) && node.q == old(node.q) && node.action == old(node.action) &&
      node.parent == old(node.parent) && node.player == old(node.player)
    ensures node.kind.SelectPieceNode? ==>
      child.kind == SelectMoveNode && child.board == node.board && child.player == !old(node.player) &&
      child.remainingMoves == MoveActions(old(node.board.Grid()))
    ensures !node.kind.SelectPieceNode? ==>
      var move := ParseMove(old(node.remainingMoves[0]));
      var q := Insert(old(node.board.Position()), move.0, move.1, ParsePiece(old(node.action.value)));
      child.player == old(node.player) && child.board.Valid() && child.board.Position() == q &&
      child.kind == MoveChildKind(q, move) &&
      child.remainingMoves == if child.kind.SelectPieceNode? then PieceActions(q.inPlay) else []
  {
    var action := node.remainingMoves[0];
    if node.kind.SelectPieceNode? {
      child := new Node.SelectMove(node.board);
    } else {
      var piece := ParsePiece(node.action.value);
      var move := ParseMove(action);
      child := MoveChild(node.board, node.board.Position(), piece, move, node.player);
    }
    node.AddChild(child, action);
  }

  // ---------------------------------------------------------------------
  // The semi-random choices and the board helpers
  // ---------------------------------------------------------------------

  /**
   * semiRandomMove: the first empty cell in row-major order where the piece
   * wins on the spot (the loops of moveSelectionAlgorithm in
   * QuartoSemiRandomAgent.java, with isSpaceTaken for the empty test), else
   * chooseRandomPositionNotPlayed(100) on a copy of the board.
   */
  method SemiRandomMove(pieceID: int, board: QuartoBoard, draws: Draws, at: nat) returns (move: Cell, next: nat)
    requires board.Valid()
    ensures move == Rules.SemiRandomMove(board.Position(), pieceID, draws, at).0
    ensures next == Rules.SemiRandomMove(board.Position(), pieceID, draws, at).1
  {
    ghost var p := board.Position();
    var found := SemiRandomAgent.FirstWinningOnBoard(board, p, pieceID);
    if found.Some? {
      return found.value, at;
    }
    move, next := RandomMove(pieceID, board, p, draws, at);
  }

  /**
   * semiRandomPieceSelection: the least piece not on the board that cannot
   * win on the spot (the loops of pieceSelectionAlgorithm in
   * QuartoSemiRandomAgent.java), else chooseRandomPieceNotPlayed(100) on a
   * copy of the board. The id itself is returned, not its name.
   */
  method SemiRandomPieceSelection(board: QuartoBoard, draws: Draws, at: nat) returns (pieceID: int, next: nat)
    requires board.Valid()
    ensures pieceID == SemiRandomPiece(board.Position(), draws, at).0
    ensures next == SemiRandomPiece(board.Position(), draws, at).1
  {
    ghost var p := board.Position();
    var safe := SemiRandomAgent.FirstSafeOnBoard(board, p);
    if safe != -1 {
      assert SemiRandomPiece(p, draws, at) == (safe, at);
      return safe, at;
    }
    pieceID, next := RandomPieceSelection(board, p, draws, at);
    assert SemiRandomPiece(p, draws, at) == RandomUnplaced(p.inPlay, draws, at, FallbackAttempts);
  }

  /** The content of a cell: the id of the piece on it, or None. */
  function CellContent(piece: QuartoPiece?): Option<int> {
    if piece == null then None else Some(piece.pieceID)
  }

  /**
   * areEqualPieces: two empty cells are equal, an empty and a full one are
   * not, two pieces are equal when their ids are. So it is the equality of
   * the cell contents: reflexive, symmetric and transitive.
   */
  function AreEqualPieces(p1: QuartoPiece?, p2: QuartoPiece?): (eq: bool)
    ensures eq <==> CellContent(p1) == CellContent(p2)
  {
    if p1 == null && p2 == null then true
    else if p1 == null || p2 == null then false
    else p1.pieceID == p2.pieceID
  }

  /** areEqualBoards: every cell of b1 is equal to the same cell of b2, so the grids are equal. */
  method AreEqualBoards(b1: QuartoBoard, b2: QuartoBoard) returns (eq: bool)
    requires b1.Valid() && b2.Valid()
    ensures eq <==> b1.Grid() == b2.Grid()
  {
    for i := 0 to b1.board.Length0
      invariant forall r, c :: 0 <= r < i && 0 <= c < Size ==> b1.Grid()[r][c] == b2.Grid()[r][c]
    {
      for j := 0 to b1.board.Length1
        invariant forall r, c :: 0 <= r < i && 0 <= c < Size ==> b1.Grid()[r][c] == b2.Grid()[r][c]
        invariant forall c :: 0 <= c < j ==> b1.Grid()[i][c] == b2.Grid()[i][c]
      {
        if !AreEqualPieces(b1.board[i, j], b2.board[i, j]) {
          assert b1.Grid()[i][j] != b2.Grid()[i][j];
          return false;
        }
      }
    }
    forall r | 0 <= r < Size ensures b1.Grid()[r] == b2.Grid()[r] {
      assert forall c :: 0 <= c < Size ==> b1.Grid()[r][c] == b2.Grid()[r][c];
    }
    return true;
  }

  /**
   * rotateBoard: on a copy of the board, cell (i, n - 1 - j) gets the piece
   * of cell (j, i), with j running down from n - 1; the grid is turned a
   * quarter. The copy's grid then holds the original's piece objects, and
   * the copy's pieces keep their flags and recorded cells.
   */
  method RotateBoard(board: QuartoBoard) returns (copyBoard: QuartoBoard)
    requires board.Valid()
    ensures fresh(copyBoard) && copyBoard.Valid()
    ensures copyBoard.Grid() == Rotate(board.Grid()) && copyBoard.InPlay() == board.InPlay()
    ensures copyBoard.PieceRows() == board.PieceRows() && copyBoard.PieceColumns() == board.PieceColumns()
  {
    ghost var p := board.Position();
    copyBoard := CopyOf(board, p);
    TurnCells(copyBoard.board, board.board);
    assert copyBoard.InPlay() == p.inPlay;
    forall r | 0 <= r < Size ensures copyBoard.Grid()[r] == Rotate(p.grid)[r] {
      assert forall c :: 0 <= c < Size ==> copyBoard.Grid()[r][c] == Rotate(p.grid)[r][c];
    }
  }

  /** The loops of rotateBoard: cell (i, n - 1 - j) of the copy gets the piece of cell (j, i). */
  method TurnCells(copy: array2<QuartoPiece?>, board: array2<QuartoPiece?>)
    requires copy.Length0 == Size && copy.Length1 == Size && board.Length0 == Size && board.Length1 == Size
    requires copy != board
    modifies copy
    ensures forall r, c :: 0 <= r < Size && 0 <= c < Size ==> copy[r, c] == board[Size - 1 - c, r]
  {
    for i := 0 to board.Length0
      invariant forall r, c :: 0 <= r < i && 0 <= c < Size ==> copy[r, c] == board[Size - 1 - c, r]
    {
      for j := board.Length1 downto 0
        invariant forall r, c :: 0 <= r < i && 0 <= c < Size ==> copy[r, c] == board[Size - 1 - c, r]
        invariant forall c :: 0 <= c < Size - j ==> copy[i, c] == board[Size - 1 - c, i]
      {
        copy[i, board.Length1 - j - 1] := board[j, i];
      }
    }
  }

  /**
   * getRotatedBoards: the boards turned one, two and three quarters. A
   * fourth turn gives back the grid, and each of them has a winning line
   * exactly when the board has.
   */
  method GetRotatedBoards(board: QuartoBoard) returns (rotateBoards: seq<QuartoBoard>)
    requires board.Valid()
    ensures |rotateBoards| == 3 && rotateBoards[0].Valid() && rotateBoards[1].Valid() && rotateBoards[2].Valid()
    ensures rotateBoards[0].Grid() == Rotate(board.Grid())
    ensures rotateBoards[1].Grid() == Rotate(rotateBoards[0].Grid())
    ensures rotateBoards[2].Grid() == Rotate(rotateBoards[1].Grid())
    ensures Rotate(rotateBoards[2].Grid()) == board.Grid()
    ensures forall k :: 0 <= k < 3 ==> (HasWinningLine(rotateBoards[k].Grid()) <==> HasWinningLine(board.Grid()))
  {
    var b1 := RotateBoard(board);
    var b2 := RotateBoard(b1);
    var b3 := RotateBoard(b2);
    RotateFourTimes(board.Grid());
    RotatePreservesWin(board.Grid());
    RotatePreservesWin(b1.Grid());
    RotatePreservesWin(b2.Grid());
    rotateBoards := [b1, b2, b3];
  }

  // ---------------------------------------------------------------------
  // argmax
  // ---------------------------------------------------------------------

  /**
   * best is the first index of a greatest value. With values[i] the score
   * evaluate(children[i], ...) this is the child bestChild is meant to pick.
   */
  predicate IsFirstMaximum(values: seq<real>, best: int) {
    0 <= best < |values| &&
    (forall j :: 0 <= j < |values| ==> values[j] <= values[best]) &&
    (forall j :: 0 <= j < best ==> values[j] < values[best])
  }

  /**
   * argmax as written, on the scores of the children: the loop reads
   * children.get(0) on every turn, so the first child is always returned.
   */
  method ArgmaxAsWritten(values: seq<real>) returns (best: nat)
    requires |values| > 0
    ensures best == 0
  {
    var maxValue := values[0];
    best := 0;
    for i := 1 to |values|
      invariant best == 0 && maxValue == values[0]
    {
      var child: nat := 0;
      var value := values[child];
      if value > maxValue {
        maxValue := value;
        best := child;
      }
    }
  }

  /** With a better second child, argmax as written misses it. */
  lemma ArgmaxAsWrittenMissesMaximum()
    ensures !IsFirstMaximum([0.0, 1.0], 0) && IsFirstMaximum([0.0, 1.0], 1)
  {
    assert [0.0, 1.0][0] < [0.0, 1.0][1];
  }

  /** argmax with children.get(i) in the loop: the first child of greatest score. */
  method Argmax(values: seq<real>) returns (best: nat)
    requires |values| > 0
    ensures IsFirstMaximum(values, best)
  {
    var maxValue := values[0];
    best := 0;
    for i := 1 to |values|
      invariant best < i && maxValue == values[best]
      invariant forall j :: 0 <= j < i ==> values[j] <= maxValue
      invariant forall j :: 0 <= j < best ==> values[j] < maxValue
    {
      var value := values[i];
      if value > maxValue {
        maxValue := value;
        best := i;
      }
    }
  }

  // ---------------------------------------------------------------------
  // The agent
  // ---------------------------------------------------------------------

  class QuartoPlayerAgent {
    /** The agent's picture of the game, kept up to date by QuartoAgent (not part of this model). */
    const quartoBoard: QuartoBoard

    constructor (quartoBoard: QuartoBoard)
      ensures this.quartoBoard == quartoBoard
    {
      this.quartoBoard := quartoBoard;
    }

    /** chceckIfGameIsWon: some row, column or diagonal of the agent's board wins. */
    method ChceckIfGameIsWon() returns (won: bool)
      requires quartoBoard.Valid()
      ensures won == HasWinningLine(quartoBoard.Grid())
    {
      won := SemiRandomAgent.CheckLines(quartoBoard);
    }
  }
}
