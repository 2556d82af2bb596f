/**
 * QuartoServer.java: the referee's turn protocol. Player two names a piece
 * for player one, player one places it, the server checks for a win and then
 * for a draw, and the players swap roles. Bad or missing replies are replaced
 * by random legal choices, with ERR_* messages; accepted ones are confirmed
 * with ACK_* messages.
 *
 * The network (GameServer.java) is a log of outgoing messages and an oracle
 * of incoming replies; Math.random() is an oracle of draws.
 */
module Server {
  import opened Java
  import opened Rules
  import opened Board

  const InfoMessageHeader := "INFO: "
  const ErrorPieceHeader := "ERR_PIECE: "
  const ErrorMoveHeader := "ERR_MOVE: "
  const AcknowledgmentPieceHeader := "ACK_PIECE: "
  const AcknowledgmentMoveHeader := "ACK_MOVE: "
  const PieceMessageHeader := "PIECE: "
  const MoveMessageHeader := "MOVE: "
  const SelectPieceHeader := "Q1: "
  const SelectMoveHeader := "Q2: "
  const GameOverHeader := "GAME_OVER: "
  const TurnTimeLimitHeader := "TURN_TIME_LIMIT: "

  /** In milliseconds. */
  const TimeLimitForResponse := 10000

  datatype Recipient = ToPlayer(player: int) | ToAll

  /**
   * What the server says, one variant per kind of line it writes; Render
   * gives the line itself.
   */
  datatype Text =
    | TurnTimeLimit(milliseconds: int)
    | SelectPiece(playerOneID: int)
    | PieceAnswer(accepted: bool, name: string)
    | SelectMove(name: string)
    | MoveAnswer(accepted: bool, move: Cell)
    | MoveMade(move: Cell)
    | PlayerWins(player: int)
    | GameDrawn

  datatype Message = Message(to: Recipient, text: Text)

  /** What listenToPlayer hands back: a line, or null when nothing arrived in time. */
  type Reply = Option<string>

  /** "r,c", as the concatenation move[0] + "," + move[1] writes it. */
  function CellText(cell: Cell): string {
    IntToString(cell.0) + "," + IntToString(cell.1)
  }

  /** The line written for a text: its header, then the payload as the source concatenates it. */
  function Render(t: Text): string {
    match t
    case TurnTimeLimit(ms) => TurnTimeLimitHeader + IntToString(ms)
    case SelectPiece(p) => SelectPieceHeader + "Please choose piece for player " + IntToString(p)
    case PieceAnswer(accepted, name) => (if accepted then AcknowledgmentPieceHeader else ErrorPieceHeader) + name
    case SelectMove(name) => SelectMoveHeader + name + " (please select move)"
    case MoveAnswer(accepted, move) => (if accepted then AcknowledgmentMoveHeader else ErrorMoveHeader) + CellText(move)
    case MoveMade(move) => MoveMessageHeader + CellText(move)
    case PlayerWins(p) => GameOverHeader + "player " + IntToString(p) + " wins"
    case GameDrawn => GameOverHeader + "Game is a draw"
  }

  /** A line that ends the game: one that starts with GAME_OVER_HEADER. */
  predicate IsGameOver(line: string) {
    |GameOverHeader| <= |line| && line[..|GameOverHeader|] == GameOverHeader
  }

  predicate EndsGame(t: Text) {
    t.PlayerWins? || t.GameDrawn?
  }

  /** A line whose header starts with another letter than GAME_OVER_HEADER does not end the game. */
  lemma OtherHeader(header: string, rest: string)
    requires |header| > 0 && header[0] != GameOverHeader[0]
    ensures !IsGameOver(header + rest)
  {
    assert (header + rest)[0] == header[0];
  }

  /** A line that starts with GAME_OVER_HEADER ends the game. */
  lemma GameOverHead(rest: string)
    ensures IsGameOver(GameOverHeader + rest)
  {
    assert (GameOverHeader + rest)[..|GameOverHeader|] == GameOverHeader;
  }

  lemma SplitLast<T>(s: seq<T>)
    requires |s| > 0
    ensures s == s[..|s| - 1] + [s[|s| - 1]]
  {
  }

  /** Two quiet messages appended one after the other extend the log by two. */
  lemma AppendTwo(log: seq<Message>, a: Message, b: Message)
    requires !EndsGame(a.text) && !EndsGame(b.text)
    ensures log + [a] + [b] == log + [a, b]
    ensures Extends(log, log + [a, b], 2)
  {
    ExtendsByAppending(log, [a, b]);
  }

  /** Three quiet messages appended one after the other extend the log by three. */
  lemma AppendThree(log: seq<Message>, a: Message, b: Message, c: Message)
    requires !EndsGame(a.text) && !EndsGame(b.text) && !EndsGame(c.text)
    ensures log + [a] + [b] + [c] == log + [a, b, c]
    ensures Extends(log, log + [a, b, c], 3)
  {
    ExtendsByAppending(log, [a, b, c]);
  }

  /**
   * later is log followed by k more messages, none of which ends the game.
   */
  ghost predicate Extends(log: seq<Message>, later: seq<Message>, k: nat) {
    |later| == |log| + k && later[..|log|] == log &&
    forall i :: |log| <= i < |later| ==> !EndsGame(later[i].text)
  }

  lemma ExtendsByAppending(log: seq<Message>, added: seq<Message>)
    requires forall i :: 0 <= i < |added| ==> !EndsGame(added[i].text)
    ensures Extends(log, log + added, |added|)
  {
  }

  lemma ExtendsTransitive(a: seq<Message>, b: seq<Message>, c: seq<Message>, j: nat, k: nat)
    requires Extends(a, b, j) && Extends(b, c, k)
    ensures Extends(a, c, j + k)
  {
    forall i | |a| <= i < |c| ensures !EndsGame(c[i].text) {
      if i < |b| {
        assert c[i] == c[..|b|][i];
      }
    }
    assert c[..|a|] == c[..|b|][..|a|];
  }

  /**
   * The messages of a last turn: five quiet ones, then the GAME_OVER line,
   * which names winner when g has a winning line and otherwise announces
   * the draw of a full grid.
   */
  ghost predicate ClosingTurn(log: seq<Message>, messages: seq<Message>, winner: int, g: Grid) {
    IsGrid(g) && |messages| == |log| + 6 && Extends(log, messages[..|messages| - 1], 5) &&
    var last := messages[|messages| - 1];
    if HasWinningLine(g) then last == Message(ToAll, PlayerWins(winner))
    else IsFull(g) && last == Message(ToAll, GameDrawn)
  }

  /**
   * How play's log closes: the log of the turns so far, then a turn's five
   * quiet messages and the game-over line PlayRound ends with, make the game
   * record of one more turn.
   */
  lemma FinishedGame(startLog: seq<Message>, header: seq<Message>, log: seq<Message>, messages: seq<Message>,
                     count: nat, turns: nat, g: Grid)
    requires header == startLog + [Message(ToAll, TurnTimeLimit(TimeLimitForResponse))]
    requires Extends(header, log, count) && count == 5 * turns
    requires ClosingTurn(log, messages, Mover(turns), g)
    ensures GameRecord(startLog, messages, turns + 1, g)
  {
    var played := messages[..|messages| - 1];
    ExtendsTransitive(header, log, played, count, 5);
    SplitLast(messages);
    MoverAlternates(turns);
    ClosingLog(startLog, header, played, messages[|messages| - 1], turns + 1, g);
  }

  /** The log play has written so far: the time-limit notice and five quiet messages per turn. */
  ghost predicate TurnsLogged(startLog: seq<Message>, messages: seq<Message>, turns: nat) {
    Extends(startLog + [Message(ToAll, TurnTimeLimit(TimeLimitForResponse))], messages, 5 * turns)
  }

  /**
   * What play's loop keeps after the given number of turns from the initial
   * position: the position is coherent and tallied, has an empty cell, keeps
   * every piece of the initial one and has one piece more per turn.
   */
  ghost predicate UnderWay(initial: Position, position: Position, turns: nat) {
    IsPosition(initial) && IsPosition(position) && Coherent(position) && Tallied(position) &&
    !IsFull(position.grid) && 0 < EmptyCount(position.grid) &&
    KeepsPlaced(initial.grid, position.grid) && turns + EmptyCount(position.grid) == EmptyCount(initial.grid)
  }

  /**
   * A game that ended after the given number of turns: the final position
   * as UnderWay describes it, except that it may be full, and the log is a
   * game record.
   */
  ghost predicate Finished(initial: Position, startLog: seq<Message>, final: Position, messages: seq<Message>, turns: nat) {
    IsPosition(initial) && IsPosition(final) && Coherent(final) && Tallied(final) &&
    KeepsPlaced(initial.grid, final.grid) && turns == EmptyCount(initial.grid) - EmptyCount(final.grid) &&
    GameRecord(startLog, messages, turns, final.grid)
  }

  /**
   * The player who is given a piece and places it in a turn, after the given
   * number of turns: player 1 first, then turns alternate.
   */
  function Mover(turns: nat): (player: int)
    ensures player == 1 || player == 2
  {
    if turns % 2 == 0 then 1 else 2
  }

  lemma {:induction false} MoverAlternates(turns: nat)
    ensures Mover(turns + 1) == 3 - Mover(turns)
    ensures Mover(turns) == (if (turns + 1) % 2 == 1 then 1 else 2)
  {
  }

  /**
   * The log of a finished game of the given number of turns on the final
   * grid g: the earlier messages, the time-limit notice, five messages per
   * turn, none of them a game-over line, and one closing GAME_OVER line that
   * names the player who placed last (player 1 on odd turns) when g has a
   * winning line, and otherwise announces the draw of a full grid.
   */
  ghost predicate GameRecord(startLog: seq<Message>, log: seq<Message>, turns: int, g: Grid) {
    var start := |startLog|;
    IsGrid(g) && 1 <= turns && |log| == start + 2 + 5 * turns &&
    log[..start] == startLog && log[start] == Message(ToAll, TurnTimeLimit(TimeLimitForResponse)) &&
    (forall i :: start <= i < |log| - 1 ==> !IsGameOver(Render(log[i].text))) &&
    (if HasWinningLine(g)
     then log[|log| - 1] == Message(ToAll, PlayerWins(if turns % 2 == 1 then 1 else 2))
     else IsFull(g) && log[|log| - 1] == Message(ToAll, GameDrawn))
  }

  /** Closing a log whose turns are quiet with the right game-over line gives a game record. */
  lemma ClosingLog(startLog: seq<Message>, header: seq<Message>, log: seq<Message>, last: Message, turns: nat, g: Grid)
    requires header == startLog + [Message(ToAll, TurnTimeLimit(TimeLimitForResponse))]
    requires Extends(header, log, 5 * turns) && 1 <= turns && IsGrid(g)
    requires if HasWinningLine(g)
      then last == Message(ToAll, PlayerWins(if turns % 2 == 1 then 1 else 2))
      else IsFull(g) && last == Message(ToAll, GameDrawn)
    ensures GameRecord(startLog, log + [last], turns, g)
  {
    var full := log + [last];
    var start := |startLog|;
    assert full[..|header|] == header;
    assert full[..start] == header[..start];
    forall i | start <= i < |full| - 1 ensures !IsGameOver(Render(full[i].text)) {
      GameOverLines(full[i].text);
      if i == start {
        assert full[i] == header[start];
      } else {
        assert full[i] == log[i];
      }
    }
  }

  /** Exactly the win and draw notices are game-over lines. */
  lemma GameOverLines(t: Text)
    ensures IsGameOver(Render(t)) <==> EndsGame(t)
  {
    if EndsGame(t) {
      EndingLines(t);
    } else if t.TurnTimeLimit? || t.SelectPiece? || t.SelectMove? {
      RequestLines(t);
    } else {
      AnswerLines(t);
    }
  }

  /** The win and draw notices start with GAME_OVER_HEADER. */
  lemma EndingLines(t: Text)
    requires EndsGame(t)
    ensures IsGameOver(Render(t))
  {
    if t.PlayerWins? {
      assert Render(t) == GameOverHeader + ("player " + IntToString(t.player) + " wins");
      GameOverHead("player " + IntToString(t.player) + " wins");
    } else {
      GameOverHead("Game is a draw");
    }
  }

  /** The time limit and the two questions do not. */
  lemma RequestLines(t: Text)
    requires t.TurnTimeLimit? || t.SelectPiece? || t.SelectMove?
    ensures !IsGameOver(Render(t))
  {
    match t
    case TurnTimeLimit(ms) => OtherHeader(TurnTimeLimitHeader, IntToString(ms));
    case SelectPiece(p) =>
      assert Render(t) == SelectPieceHeader + ("Please choose piece for player " + IntToString(p));
      OtherHeader(SelectPieceHeader, "Please choose piece for player " + IntToString(p));
    case SelectMove(name) =>
      assert Render(t) == SelectMoveHeader + (name + " (please select move)");
      OtherHeader(SelectMoveHeader, name + " (please select move)");
  }

  /** Nor do the answers to the players and the move notices. */
  lemma AnswerLines(t: Text)
    requires t.PieceAnswer? || t.MoveAnswer? || t.MoveMade?
    ensures !IsGameOver(Render(t))
  {
    match t
    case PieceAnswer(accepted, name) =>
      OtherHeader(if accepted then AcknowledgmentPieceHeader else ErrorPieceHeader, name);
    case MoveAnswer(accepted, move) =>
      OtherHeader(if accepted then AcknowledgmentMoveHeader else ErrorMoveHeader, CellText(move));
    case MoveMade(move) => OtherHeader(MoveMessageHeader, CellText(move));
  }

  // ---------------------------------------------------------------------
  // Reading replies, and the choice that follows
  // ---------------------------------------------------------------------

  /** Integer.parseInt(response, 2), a null response being an error. */
  function ReadPiece(response: Reply): (pieceID: Option<int>)
    ensures response.None? ==> pieceID.None?
    ensures pieceID.Some? ==> IsInt(pieceID.value)
  {
    if response.None? then None else ParseInt(response.value, 2)
  }

  /**
   * response.split(",") and Integer.parseInt of fields 0 and 1; a null
   * response, a missing field or a field that does not parse is an error.
   * Fields after the second are ignored.
   */
  function ReadMove(response: Reply): (move: Option<Cell>)
    ensures response.None? ==> move.None?
    ensures move.Some? ==> IsInt(move.value.0) && IsInt(move.value.1)
  {
    if response.None? then None
    else
      var rowColumn := Split(response.value, ',');
      if |rowColumn| < 2 then None
      else
        match (ParseInt(rowColumn[0], 10), ParseInt(rowColumn[1], 10))
        case (Some(row), Some(column)) => Some((row, column))
        case _ => None
  }

  /** A client's reply: the piece's binary name reads back as its id. */
  lemma ReadPieceName(pieceID: int)
    requires IsId(pieceID)
    ensures ReadPiece(Some(BinaryName(pieceID))) == Some(pieceID)
  {
    ParseBinaryName(pieceID);
  }

  /** A client's reply: "r,c" reads back as the cell. */
  lemma ReadMoveText(move: Cell)
    requires IsInt(move.0) && IsInt(move.1)
    ensures ReadMove(Some(CellText(move))) == Some(move)
  {
    IntToStringParses(move.0);
    IntToStringParses(move.1);
    SplitTwo(IntToString(move.0), IntToString(move.1), ',');
  }

  /**
   * ReadMove reads the fields of Split, which keeps trailing empty fields;
   * reading the fields of Java's String.split instead gives the same move or
   * error: a removed field is empty and fails to parse, just as a missing
   * one is an error, and a field that is kept is the same in both.
   */
  lemma ReadMoveJavaSplit(response: string)
    ensures var fields := JavaSplit(response, ',');
      ReadMove(Some(response)) ==
        if |fields| < 2 then None
        else match (ParseInt(fields[0], 10), ParseInt(fields[1], 10))
          case (Some(row), Some(column)) => Some((row, column))
          case _ => None
  {
    var fields := JavaSplit(response, ',');
    var all := Split(response, ',');
    if ',' !in response {
      SplitNoSeparator(response, ',');
    } else {
      assert fields == all[..|fields|];
      if |fields| < 2 && |all| >= 2 {
        assert all[1] == "";
        assert ParseInt(all[1], 10).None?;
      }
      if |fields| >= 2 {
        assert fields[0] == all[0] && fields[1] == all[1];
      }
    }
  }

  /** The outcome of a request: what is used, whether the reply was accepted, the next unused draw. */
  datatype Choice<T> = Choice(value: T, accepted: bool, next: nat)

  /**
   * choosePiece after the reply: the reply's piece when it names a piece
   * that is not in play (isValidPiece), else chooseRandomPieceNotPlayed(100).
   */
  function PieceChoice(inPlay: seq<bool>, response: Reply, draws: Draws, at: nat): (choice: Choice<int>)
    requires |inPlay| == PieceCount
    ensures choice.accepted ==> Some(choice.value) == ReadPiece(response) && choice.next == at
    ensures !choice.accepted ==> (choice.value, choice.next) == RandomUnplaced(inPlay, draws, at, FallbackAttempts)
    ensures (exists i :: IsId(i) && !inPlay[i]) ==> IsId(choice.value) && !inPlay[choice.value]
  {
    var parsed := ReadPiece(response);
    if parsed.Some? && IsId(parsed.value) && !inPlay[parsed.value] then
      Choice(parsed.value, true, at)
    else
      var (pieceID, next) := RandomUnplaced(inPlay, draws, at, FallbackAttempts);
      Choice(pieceID, false, next)
  }

  /**
   * chooseMove after the reply: the reply's cell when it is on the board and
   * empty (isValidMove), else chooseRandomPositionNotPlayed(100).
   */
  function MoveChoice(g: Grid, response: Reply, draws: Draws, at: nat): (choice: Choice<Cell>)
    requires IsGrid(g)
    ensures choice.accepted ==> Some(choice.value) == ReadMove(response) && choice.next == at
    ensures !choice.accepted ==> (choice.value, choice.next) == RandomEmptyCell(g, draws, at, FallbackAttempts)
    ensures !IsFull(g) ==> InRange(choice.value.0, choice.value.1) && g[choice.value.0][choice.value.1].None?
  {
    var parsed := ReadMove(response);
    if parsed.Some? && InRange(parsed.value.0, parsed.value.1) && g[parsed.value.0][parsed.value.1].None? then
      Choice(parsed.value, true, at)
    else
      var (move, next) := RandomEmptyCell(g, draws, at, FallbackAttempts);
      Choice(move, false, next)
  }

  /** A reply naming a piece not in play is accepted, and no draw is used. */
  lemma PieceChoiceAcceptsName(inPlay: seq<bool>, pieceID: int, draws: Draws, at: nat)
    requires |inPlay| == PieceCount && IsId(pieceID) && !inPlay[pieceID]
    ensures PieceChoice(inPlay, Some(BinaryName(pieceID)), draws, at) == Choice(pieceID, true, at)
  {
    ReadPieceName(pieceID);
  }

  /** A reply naming a piece that is already in play is never accepted. */
  lemma PieceChoiceRejectsPlaced(inPlay: seq<bool>, pieceID: int, draws: Draws, at: nat)
    requires |inPlay| == PieceCount && IsId(pieceID) && inPlay[pieceID]
    ensures !PieceChoice(inPlay, Some(BinaryName(pieceID)), draws, at).accepted
  {
    ReadPieceName(pieceID);
  }

  /** A reply naming an empty cell is accepted, and no draw is used. */
  lemma MoveChoiceAcceptsText(g: Grid, move: Cell, draws: Draws, at: nat)
    requires IsGrid(g) && InRange(move.0, move.1) && g[move.0][move.1].None?
    ensures MoveChoice(g, Some(CellText(move)), draws, at) == Choice(move, true, at)
  {
    ReadMoveText(move);
  }

  /** A reply naming an occupied or off-board cell is never accepted. */
  lemma MoveChoiceRejectsTaken(g: Grid, move: Cell, draws: Draws, at: nat)
    requires IsGrid(g) && IsInt(move.0) && IsInt(move.1)
    requires !InRange(move.0, move.1) || g[move.0][move.1].Some?
    ensures !MoveChoice(g, Some(CellText(move)), draws, at).accepted
  {
    ReadMoveText(move);
  }

  // ---------------------------------------------------------------------
  // The connection to the players
  // ---------------------------------------------------------------------

  /**
   * The part of GameServer the referee uses: every write is appended to
   * `messages`, and listenToPlayer hands out the replies of an arbitrary
   * oracle in order, recording whom it listened to.
   */
  class GameServer {
    const replies: nat -> Reply
    var messages: seq<Message>
    var polled: seq<int>

    constructor (replies: nat -> Reply)
      ensures this.replies == replies && messages == [] && polled == []
    {
      this.replies := replies;
      messages := [];
      polled := [];
    }

    /** The reply the next listenToPlayer returns. */
    function Pending(): Reply
      reads this
    {
      replies(|polled|)
    }

    method WriteToPlayer(playerNumber: int, message: Text)
      modifies this
      ensures messages == old(messages) + [Message(ToPlayer(playerNumber), message)]
      ensures polled == old(polled)
    {
      messages := messages + [Message(ToPlayer(playerNumber), message)];
    }

    method WriteToAllPlayers(message: Text)
      modifies this
      ensures messages == old(messages) + [Message(ToAll, message)]
      ensures polled == old(polled)
    {
      messages := messages + [Message(ToAll, message)];
    }

    method ListenToPlayer(playerNumber: int, timeOutTime: int) returns (response: Reply)
      modifies this
      ensures response == old(Pending())
      ensures messages == old(messages) && polled == old(polled) + [playerNumber]
    {
      response := replies(|polled|);
      polled := polled + [playerNumber];
    }
  }

  // ---------------------------------------------------------------------
  // The referee
  // ---------------------------------------------------------------------

  class QuartoServer {
    const gameServer: GameServer
    const quartoBoard: QuartoBoard
    /** The results of Math.random(), in order; `drawn` of them are used. */
    const draws: Draws
    var drawn: nat

    /** A 5x5 board with 32 pieces and no state file. */
    constructor (gameServer: GameServer, draws: Draws)
      ensures this.gameServer == gameServer && this.draws == draws && drawn == 0
      ensures fresh(quartoBoard) && fresh(quartoBoard.board) && fresh(quartoBoard.pieces)
      ensures quartoBoard.Valid() && quartoBoard.Position() == EmptyPosition()
    {
      this.gameServer := gameServer;
      this.draws := draws;
      drawn := 0;
      quartoBoard := new QuartoBoard();
    }

    /** isValidPiece: the id names a piece, and that piece is not on the board. */
    function IsValidPiece(pieceID: int): (valid: bool)
      requires quartoBoard.Valid()
      reads quartoBoard.board, quartoBoard.pieces, quartoBoard.pieces[..], quartoBoard.Arrays()
      ensures valid <==> IsId(pieceID) && !quartoBoard.InPlay()[pieceID]
    {
      !(pieceID < 0 || pieceID >= PieceCount || quartoBoard.IsPieceOnBoard(pieceID))
    }

    /** isValidMove: the cell is on the board and empty. */
    function IsValidMove(row: int, column: int): (valid: bool)
      requires quartoBoard.Valid()
      reads quartoBoard.board, quartoBoard.pieces, quartoBoard.pieces[..], quartoBoard.Arrays()
      ensures valid <==> InRange(row, column) && quartoBoard.Grid()[row][column].None?
    {
      !(row < 0 || row >= Size || column < 0 || column >= Size || quartoBoard.IsSpaceTaken(row, column))
    }

    /** writeToPlayer on behalf of the game; the board is not touched. */
    method Tell(player: int, text: Text)
      requires quartoBoard.Valid()
      modifies gameServer
      ensures gameServer.messages == old(gameServer.messages) + [Message(ToPlayer(player), text)]
      ensures gameServer.polled == old(gameServer.polled)
      ensures quartoBoard.Valid() && quartoBoard.Position() == old(quartoBoard.Position())
    {
      gameServer.WriteToPlayer(player, text);
    }

    /** writeToAllPlayers on behalf of the game; the board is not touched. */
    method Broadcast(text: Text)
      requires quartoBoard.Valid()
      modifies gameServer
      ensures gameServer.messages == old(gameServer.messages) + [Message(ToAll, text)]
      ensures gameServer.polled == old(gameServer.polled)
      ensures quartoBoard.Valid() && quartoBoard.Position() == old(quartoBoard.Position())
    {
      gameServer.WriteToAllPlayers(text);
    }

    /**
     * A request and its reply: writeToPlayer, then listenToPlayer with the
     * TIME_LIMIT_FOR_RESPONSE timeout. The reply is the player's next one.
     */
    method Ask(player: int, request: Text) returns (response: Reply)
      requires quartoBoard.Valid()
      modifies gameServer
      ensures response == old(gameServer.Pending())
      ensures gameServer.messages == old(gameServer.messages) + [Message(ToPlayer(player), request)]
      ensures gameServer.polled == old(gameServer.polled) + [player]
      ensures quartoBoard.Valid() && quartoBoard.Position() == old(quartoBoard.Position())
    {
      gameServer.WriteToPlayer(player, request);
      response := gameServer.ListenToPlayer(player, TimeLimitForResponse);
    }

    /**
     * The try/catch of choosePiece, up to its write: the reply's piece when
     * it parses in base 2 and isValidPiece holds, else
     * chooseRandomPieceNotPlayed(100), which uses up draws.
     */
    method ResolvePiece(response: Reply, ghost inPlay: seq<bool>) returns (pieceID: int, accepted: bool)
      requires quartoBoard.Valid() && inPlay == quartoBoard.InPlay()
      modifies this
      ensures var choice := PieceChoice(inPlay, response, draws, old(drawn));
        pieceID == choice.value && accepted == choice.accepted && drawn == choice.next
      ensures quartoBoard.Valid() && quartoBoard.Position() == old(quartoBoard.Position())
    {
      var parsed := ReadPiece(response);
      if parsed.Some? && IsValidPiece(parsed.value) {
        pieceID, accepted := parsed.value, true;
      } else {
        var next;
        pieceID, next := quartoBoard.ChooseRandomPieceNotPlayed(FallbackAttempts, draws, drawn);
        accepted := false;
        drawn := next;
      }
    }

    /**
     * choosePiece: ask player two to name player one's piece, and answer with
     * ACK_PIECE or ERR_PIECE and the piece used. The source needs a piece that
     * is not in play: with none left the fallback returns -1 and
     * getPiece(-1).binaryStringRepresentation() throws.
     */
    method ChoosePiece(playerOneID: int, playerTwoID: int) returns (pieceID: int)
      requires quartoBoard.Valid()
      requires exists i :: IsId(i) && !quartoBoard.InPlay()[i]
      modifies this, gameServer
      ensures var choice := PieceChoice(old(quartoBoard.InPlay()), old(gameServer.Pending()), draws, old(drawn));
        pieceID == choice.value && drawn == choice.next &&
        gameServer.messages == old(gameServer.messages) + [
          Message(ToPlayer(playerTwoID), SelectPiece(playerOneID)),
          Message(ToPlayer(playerTwoID), PieceAnswer(choice.accepted, BinaryName(pieceID)))]
      ensures gameServer.polled == old(gameServer.polled) + [playerTwoID]
      ensures Extends(old(gameServer.messages), gameServer.messages, 2)
      ensures quartoBoard.Valid() && quartoBoard.Position() == old(quartoBoard.Position())
      ensures IsId(pieceID) && !old(quartoBoard.InPlay())[pieceID]
    {
      ghost var inPlay := quartoBoard.InPlay();
      var response := Ask(playerTwoID, SelectPiece(playerOneID));
      var accepted;
      pieceID, accepted := ResolvePiece(response, inPlay);
      var piece := quartoBoard.GetPiece(pieceID);
      var name := piece.BinaryStringRepresentation();
      assert name == BinaryName(pieceID);
      Tell(playerTwoID, PieceAnswer(accepted, name));
      AppendTwo(old(gameServer.messages), Message(ToPlayer(playerTwoID), SelectPiece(playerOneID)),
                Message(ToPlayer(playerTwoID), PieceAnswer(accepted, name)));
    }

    /**
     * The try/catch of chooseMove, up to its writes: the reply's cell when it
     * reads as "row,column" and isValidMove holds, else
     * chooseRandomPositionNotPlayed(100), which uses up draws.
     */
    method ResolveMove(response: Reply, ghost grid: Grid) returns (move: Cell, accepted: bool)
      requires quartoBoard.Valid() && grid == quartoBoard.Grid()
      modifies this
      ensures var choice := MoveChoice(grid, response, draws, old(drawn));
        move == choice.value && accepted == choice.accepted && drawn == choice.next
      ensures quartoBoard.Valid() && quartoBoard.Position() == old(quartoBoard.Position())
    {
      var parsed := ReadMove(response);
      if parsed.Some? && IsValidMove(parsed.value.0, parsed.value.1) {
        move, accepted := parsed.value, true;
      } else {
        var next;
        move, next := quartoBoard.ChooseRandomPositionNotPlayed(FallbackAttempts, draws, drawn);
        accepted := false;
        drawn := next;
      }
    }

    /**
     * chooseMove: ask player one where to put the piece, answer with ACK_MOVE
     * or ERR_MOVE and the cell used, and tell player two that cell. The source
     * needs a real piece id, for getPiece(pieceID) in the request.
     */
    method ChooseMove(playerOneID: int, playerTwoID: int, pieceID: int) returns (move: Cell)
      requires quartoBoard.Valid() && IsId(pieceID)
      modifies this, gameServer
      ensures var choice := MoveChoice(old(quartoBoard.Grid()), old(gameServer.Pending()), draws, old(drawn));
        move == choice.value && drawn == choice.next &&
        gameServer.messages == old(gameServer.messages) + [
          Message(ToPlayer(playerOneID), SelectMove(BinaryName(pieceID))),
          Message(ToPlayer(playerOneID), MoveAnswer(choice.accepted, move)),
          Message(ToPlayer(playerTwoID), MoveMade(move))]
      ensures gameServer.polled == old(gameServer.polled) + [playerOneID]
      ensures Extends(old(gameServer.messages), gameServer.messages, 3)
      ensures quartoBoard.Valid() && quartoBoard.Position() == old(quartoBoard.Position())
    {
      ghost var grid := quartoBoard.Grid();
      var piece := quartoBoard.GetPiece(pieceID);
      var name := piece.BinaryStringRepresentation();
      assert name == BinaryName(pieceID);
      var response := Ask(playerOneID, SelectMove(name));
      var accepted;
      move, accepted := ResolveMove(response, grid);
      Tell(playerOneID, MoveAnswer(accepted, move));
      Tell(playerTwoID, MoveMade(move));
      AppendThree(old(gameServer.messages), Message(ToPlayer(playerOneID), SelectMove(name)),
                  Message(ToPlayer(playerOneID), MoveAnswer(accepted, move)), Message(ToPlayer(playerTwoID), MoveMade(move)));
    }

    /** checkIfGameIsWon: every row, then every column, then the diagonals. */
    method CheckIfGameIsWon() returns (won: bool)
      requires quartoBoard.Valid()
      ensures won == HasWinningLine(quartoBoard.Grid())
      ensures quartoBoard.Valid() && quartoBoard.Position() == old(quartoBoard.Position())
    {
      for i := 0 to Size
        invariant forall r :: 0 <= r < i ==> !RowWins(quartoBoard.Grid(), r)
      {
        var rowWins := quartoBoard.CheckRow(i);
        if rowWins {
          return true;
        }
      }
      for i := 0 to Size
        invariant forall r :: 0 <= r < Size ==> !RowWins(quartoBoard.Grid(), r)
        invariant forall c :: 0 <= c < i ==> !ColumnWins(quartoBoard.Grid(), c)
      {
        var columnWins := quartoBoard.CheckColumn(i);
        if columnWins {
          return true;
        }
      }
      won := quartoBoard.CheckDiagonals();
    }

    /** checkIfGameIsDraw: the board is full. */
    method CheckIfGameIsDraw() returns (draw: bool)
      requires quartoBoard.Valid()
      ensures draw == IsFull(quartoBoard.Grid())
      ensures quartoBoard.Valid() && quartoBoard.Position() == old(quartoBoard.Position())
    {
      draw := quartoBoard.CheckIfBoardIsFull();
    }

    /**
     * The two requests of a turn of play: choosePiece, then chooseMove with
     * that piece. On a tallied board with an empty cell both fallbacks
     * succeed, so the piece is one not in play and the cell an empty one.
     */
    method ChooseTurn(playerOne: int, playerTwo: int, ghost before: Position) returns (pieceID: int, move: Cell)
      requires quartoBoard.Valid() && before == quartoBoard.Position()
      requires Tallied(before) && !IsFull(before.grid)
      modifies this, gameServer
      ensures quartoBoard.Valid() && quartoBoard.Position() == before
      ensures CanInsert(before, move.0, move.1, pieceID) && before.grid[move.0][move.1].None?
      ensures Extends(old(gameServer.messages), gameServer.messages, 5)
      ensures gameServer.polled == old(gameServer.polled) + [playerTwo, playerOne]
    {
      UnplacedPieceExists(before);
      ghost var log := gameServer.messages;
      pieceID := ChoosePiece(playerOne, playerTwo);
      ghost var middle := gameServer.messages;
      move := ChooseMove(playerOne, playerTwo, pieceID);
      ExtendsTransitive(log, middle, gameServer.messages, 2, 3);
    }

    /**
     * One turn of play up to its win check: the two requests, the insertion
     * into the empty cell chosen, and checkIfGameIsWon. The board stays
     * coherent and tallied, gains one piece, and keeps every piece it had.
     */
    method PlayTurn(playerOne: int, playerTwo: int, ghost before: Position) returns (won: bool, ghost after: Position)
      requires quartoBoard.Valid() && before == quartoBoard.Position()
      requires Coherent(before) && Tallied(before) && !IsFull(before.grid)
      modifies this, gameServer, quartoBoard.board, quartoBoard.pieces[..]
      ensures quartoBoard.Valid() && after == quartoBoard.Position()
      ensures Coherent(after) && Tallied(after) && EmptyCount(after.grid) == EmptyCount(before.grid) - 1
      ensures KeepsPlaced(before.grid, after.grid)
      ensures won == HasWinningLine(after.grid)
      ensures Extends(old(gameServer.messages), gameServer.messages, 5)
    {
      var pieceID, move := ChooseTurn(playerOne, playerTwo, before);
      ghost var log := gameServer.messages;
      won, after := PlaceTurn(pieceID, move, before);
      assert gameServer.messages == log;
    }

    /**
     * The rest of a turn: insertPieceOnBoard puts the chosen piece on the
     * chosen empty cell, which keeps the position coherent and tallied, and
     * checkIfGameIsWon looks at the new position.
     */
    method PlaceTurn(pieceID: int, move: Cell, ghost before: Position) returns (won: bool, ghost after: Position)
      requires quartoBoard.Valid() && before == quartoBoard.Position()
      requires Coherent(before) && Tallied(before)
      requires CanInsert(before, move.0, move.1, pieceID) && before.grid[move.0][move.1].None?
      modifies quartoBoard.board, quartoBoard.pieces[..]
      ensures quartoBoard.Valid() && after == quartoBoard.Position()
      ensures after == Insert(before, move.0, move.1, pieceID)
      ensures Coherent(after) && Tallied(after) && EmptyCount(after.grid) == EmptyCount(before.grid) - 1
      ensures KeepsPlaced(before.grid, after.grid)
      ensures won == HasWinningLine(after.grid)
    {
      var inserted := quartoBoard.InsertPieceOnBoard(move.0, move.1, pieceID);
      after := Insert(before, move.0, move.1, pieceID);
      InsertKeepsCoherent(before, move.0, move.1, pieceID);
      InsertCounts(before, move.0, move.1, pieceID);
      won := CheckIfGameIsWon();
    }

    /**
     * One pass of play's loop after the turn itself: on a win the GAME_OVER
     * line naming playerOne and the first break; otherwise the players swap,
     * and on a full board the draw line and the second break. over says
     * whether the pass ended in one of the breaks.
     */
    method PlayRound(playerOne: int, playerTwo: int, ghost before: Position)
      returns (over: bool, nextOne: int, nextTwo: int, ghost after: Position)
      requires quartoBoard.Valid() && before == quartoBoard.Position()
      requires Coherent(before) && Tallied(before) && !IsFull(before.grid)
      modifies this, gameServer, quartoBoard.board, quartoBoard.pieces[..]
      ensures quartoBoard.Valid() && after == quartoBoard.Position()
      ensures Coherent(after) && Tallied(after) && EmptyCount(after.grid) == EmptyCount(before.grid) - 1
      ensures KeepsPlaced(before.grid, after.grid)
      ensures !over ==>
        !IsFull(after.grid) && nextOne == playerTwo && nextTwo == playerOne &&
        Extends(old(gameServer.messages), gameServer.messages, 5)
      ensures over ==> ClosingTurn(old(gameServer.messages), gameServer.messages, playerOne, after.grid)
    {
      nextOne, nextTwo := playerOne, playerTwo;
      var won;
      won, after := PlayTurn(playerOne, playerTwo, before);
      ghost var played := gameServer.messages;
      if won {
        Broadcast(PlayerWins(playerOne));
        assert gameServer.messages[..|gameServer.messages| - 1] == played;
        return true, nextOne, nextTwo, after;
      } else {
        var temp := nextOne;
        nextOne := nextTwo;
        nextTwo := temp;
      }
      var draw := CheckIfGameIsDraw();
      if draw {
        Broadcast(GameDrawn);
        assert gameServer.messages[..|gameServer.messages| - 1] == played;
        return true, nextOne, nextTwo, after;
      }
      over := false;
    }

    /**
     * A pass of play's loop with the bookkeeping of the turns so far: after
     * it either the game goes on, with the next player to move and one more
     * turn logged, or it is finished.
     */
    method PlayTrackedRound(playerOne: int, playerTwo: int, ghost initial: Position, ghost startLog: seq<Message>,
                            ghost before: Position, ghost turns: nat)
      returns (over: bool, nextOne: int, nextTwo: int, ghost after: Position)
      requires quartoBoard.Valid() && before == quartoBoard.Position()
      requires UnderWay(initial, before, turns) && TurnsLogged(startLog, gameServer.messages, turns)
      requires playerOne == Mover(turns) && playerTwo == 3 - playerOne
      modifies this, gameServer, quartoBoard.board, quartoBoard.pieces[..]
      ensures quartoBoard.Valid() && after == quartoBoard.Position()
      ensures !over ==> UnderWay(initial, after, turns + 1) && TurnsLogged(startLog, gameServer.messages, turns + 1)
      ensures !over ==> nextOne == Mover(turns + 1) && nextTwo == 3 - nextOne
      ensures over ==> Finished(initial, startLog, after, gameServer.messages, turns + 1)
    {
      ghost var log := gameServer.messages;
      ghost var header := startLog + [Message(ToAll, TurnTimeLimit(TimeLimitForResponse))];
      over, nextOne, nextTwo, after := PlayRound(playerOne, playerTwo, before);
      KeepsPlacedTransitive(initial.grid, before.grid, after.grid);
      if over {
        FinishedGame(startLog, header, log, gameServer.messages, 5 * turns, turns, after.grid);
      } else {
        ExtendsTransitive(header, log, gameServer.messages, 5 * turns, 5);
        assert 5 * turns + 5 == 5 * (turns + 1);
        MoverAlternates(turns);
        EmptyCountFull(after.grid);
      }
    }

    /**
     * play, from a coherent, tallied position with an empty cell (the
     * constructor's empty board is one). Every turn places a new piece on an
     * empty cell, so the game ends within the number of empty cells; it ends
     * with the one GAME_OVER broadcast, naming as winner the player who
     * placed last (player 1 on odd turns), or the draw.
     */
    method Play() returns (ghost final: Position, ghost turns: nat)
      requires quartoBoard.Valid() && Coherent(quartoBoard.Position()) && Tallied(quartoBoard.Position())
      requires !IsFull(quartoBoard.Grid())
      modifies this, gameServer, quartoBoard.board, quartoBoard.pieces[..]
      ensures quartoBoard.Valid() && final == quartoBoard.Position() && Coherent(final) && Tallied(final)
      ensures KeepsPlaced(old(quartoBoard.Grid()), final.grid)
      ensures turns == EmptyCount(old(quartoBoard.Grid())) - EmptyCount(final.grid)
      ensures GameRecord(old(gameServer.messages), gameServer.messages, turns, final.grid)
    {
      ghost var initial := quartoBoard.Position();
      ghost var startLog := gameServer.messages;
      Broadcast(TurnTimeLimit(TimeLimitForResponse));
      var playerOne, playerTwo := 1, 2;
      ghost var position := initial;
      turns := 0;
      EmptyCountFull(initial.grid);
      ExtendsByAppending(gameServer.messages, []);
      while true
        invariant quartoBoard.Valid() && position == quartoBoard.Position()
        invariant UnderWay(initial, position, turns) && TurnsLogged(startLog, gameServer.messages, turns)
        invariant playerOne == Mover(turns) && playerTwo == 3 - playerOne
        decreases EmptyCount(initial.grid) - turns
      {
        var over;
        over, playerOne, playerTwo, position := PlayTrackedRound(playerOne, playerTwo, initial, startLog, position, turns);
        turns := turns + 1;
        if over {
          final := position;
          break;
        }
      }
    }
  }
}
