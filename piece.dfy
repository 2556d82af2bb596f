/**
 * QuartoPiece.java: a piece has an id; its five characteristics are read off
 * the id's zero-padded 5-character binary name, leftmost character first;
 * and it records whether it is on the board and at which row and column.
 */
module Piece {
  import opened Java

  /**
   * The characteristics setCharacteristics derives from an id: characteristic
   * i holds when character i of the padded binary name is '1'.
   * [0] tall/short, [1] solid/hollow, [2] white/black, [3] wood/metal, [4] round/square.
   */
  function Characteristics(id: int): seq<bool>
    requires IsInt(id)
  {
    var name := BinaryName(id);
    seq(5, i requires 0 <= i < 5 => name[i] == '1')
  }

  /** For the ids of the game, characteristic i is bit 4 - i of the id. */
  lemma CharacteristicIsBit(id: int)
    requires 0 <= id < 32
    ensures |Characteristics(id)| == 5
    ensures forall i :: 0 <= i < 5 ==> (Characteristics(id)[i] <==> Bit(id, 4 - i) == 1)
  {
    BinaryNameBits(id);
  }

  /** Two different ids of the game never have the same characteristics. */
  lemma {:induction false} CharacteristicsDetermineId(a: int, b: int)
    requires 0 <= a < 32 && 0 <= b < 32
    requires Characteristics(a) == Characteristics(b)
    ensures a == b
  {
    CharacteristicIsBit(a);
    CharacteristicIsBit(b);
    assert forall j :: 0 <= j < 5 ==> Bit(a, j) == Bit(b, j) by {
      forall j | 0 <= j < 5 ensures Bit(a, j) == Bit(b, j) {
        assert Characteristics(a)[4 - j] == Characteristics(b)[4 - j];
      }
    }
    BitsDetermine(a, b, 5);
  }

  lemma {:induction false} BitsDetermine(a: nat, b: nat, m: nat)
    requires a < Pow2(m) && b < Pow2(m)
    requires forall j :: 0 <= j < m ==> Bit(a, j) == Bit(b, j)
    ensures a == b
  {
    if m > 0 {
      forall j | 0 <= j < m - 1 ensures Bit(a / 2, j) == Bit(b / 2, j) {
        assert Bit(a, j + 1) == Bit(b, j + 1);
      }
      BitsDetermine(a / 2, b / 2, m - 1);
      assert Bit(a, 0) == Bit(b, 0);
    }
  }

  class QuartoPiece {
    const pieceID: int
    const characteristics: array<bool>
    var row: int
    var column: int
    var inPlay: bool

    /** The characteristics array holds what setCharacteristics derives from the id. */
    ghost predicate Valid()
      reads characteristics
    {
      IsInt(pieceID) && characteristics.Length == 5 && characteristics[..] == Characteristics(pieceID)
    }

    /** A new piece is not in play and has no position (row = column = -1). */
    constructor (pieceID: int)
      requires IsInt(pieceID)
      ensures Valid() && fresh(characteristics)
      ensures this.pieceID == pieceID && !inPlay && row == -1 && column == -1
    {
      this.inPlay := false;
      this.pieceID := pieceID;
      row := -1;
      column := -1;
      characteristics := new bool[5];
      new;
      SetCharacteristics();
    }

    /** The copy constructor: same id, in-play flag and position; characteristics recomputed. */
    constructor Copy(quartoPiece: QuartoPiece)
      requires IsInt(quartoPiece.pieceID)
      ensures Valid() && fresh(characteristics)
      ensures pieceID == quartoPiece.pieceID && inPlay == quartoPiece.inPlay
      ensures row == quartoPiece.row && column == quartoPiece.column
    {
      inPlay := quartoPiece.inPlay;
      pieceID := quartoPiece.pieceID;
      row := quartoPiece.row;
      column := quartoPiece.column;
      characteristics := new bool[5];
      new;
      SetCharacteristics();
    }

    /** Records the cell the piece is placed on and marks it in play. */
    method SetPosition(row: int, column: int)
      modifies this
      ensures this.row == row && this.column == column && inPlay
    {
      this.row := row;
      this.column := column;
      SetInPlay(true);
    }

    method SetInPlay(inPlay: bool)
      modifies this
      ensures this.inPlay == inPlay && row == old(row) && column == old(column)
    {
      this.inPlay := inPlay;
    }

    /** Fills characteristics[i] with whether character i of the padded binary name is '1'. */
    method SetCharacteristics()
      requires IsInt(pieceID) && characteristics.Length == 5
      modifies characteristics
      ensures Valid()
    {
      var binaryString := BinaryName(pieceID);
      for i := 0 to characteristics.Length
        invariant forall k :: 0 <= k < i ==> characteristics[k] == (binaryString[k] == '1')
      {
        var binaryChar := binaryString[i];
        if binaryChar == '1' {
          characteristics[i] := true;
        } else {
          characteristics[i] := false;
        }
      }
      assert characteristics[..] == Characteristics(pieceID);
    }

    /** Characteristic k, with what it means for a game id: bit 4 - k of the id. */
    function Trait(k: int): (has: bool)
      requires Valid() && 0 <= k < 5
      reads characteristics
      ensures has <==> BinaryName(pieceID)[k] == '1'
      ensures 0 <= pieceID < 32 ==> (has <==> Bit(pieceID, 4 - k) == 1)
    {
      if 0 <= pieceID < 32 then CharacteristicIsBit(pieceID); characteristics[k] else characteristics[k]
    }

    /** isTall: characteristic 0, so bit 4 of the id (ids 16..31 are tall). */
    function IsTall(): (tall: bool)
      requires Valid()
      reads characteristics
      ensures tall == Trait(0)
      ensures 0 <= pieceID < 32 ==> (tall <==> pieceID >= 16)
    {
      BitsBelow32(pieceID);
      characteristics[0]
    }

    /** isSolid: characteristic 1, bit 3 of the id. */
    function IsSolid(): (solid: bool)
      requires Valid()
      reads characteristics
      ensures solid == Trait(1)
      ensures 0 <= pieceID < 32 ==> (solid <==> pieceID / 8 % 2 == 1)
    {
      BitsBelow32(pieceID);
      characteristics[1]
    }

    /** isWhite: characteristic 2, bit 2 of the id. */
    function IsWhite(): (white: bool)
      requires Valid()
      reads characteristics
      ensures white == Trait(2)
      ensures 0 <= pieceID < 32 ==> (white <==> pieceID / 4 % 2 == 1)
    {
      BitsBelow32(pieceID);
      characteristics[2]
    }

    /** isWood: characteristic 3, bit 1 of the id. */
    function IsWood(): (wood: bool)
      requires Valid()
      reads characteristics
      ensures wood == Trait(3)
      ensures 0 <= pieceID < 32 ==> (wood <==> pieceID / 2 % 2 == 1)
    {
      BitsBelow32(pieceID);
      characteristics[3]
    }

    /** isRound: characteristic 4, bit 0 of the id. */
    function IsRound(): (round: bool)
      requires Valid()
      reads characteristics
      ensures round == Trait(4)
      ensures 0 <= pieceID < 32 ==> (round <==> pieceID % 2 == 1)
    {
      BitsBelow32(pieceID);
      characteristics[4]
    }

    function GetHeight(): (word: string)
      requires Valid()
      reads characteristics
      ensures word == "tall" || word == "short"
      ensures word == "tall" <==> IsTall()
    {
      if IsTall() then "tall" else "short"
    }

    function GetStructure(): (word: string)
      requires Valid()
      reads characteristics
      ensures word == "solid" || word == "hollow"
      ensures word == "solid" <==> IsSolid()
    {
      if IsSolid() then "solid" else "hollow"
    }

    function GetColor(): (word: string)
      requires Valid()
      reads characteristics
      ensures word == "white" || word == "black"
      ensures word == "white" <==> IsWhite()
    {
      if IsWhite() then "white" else "black"
    }

    function GetMaterial(): (word: string)
      requires Valid()
      reads characteristics
      ensures word == "wood" || word == "metal"
      ensures word == "wood" <==> IsWood()
    {
      if IsWood() then "wood" else "metal"
    }

    function GetShape(): (word: string)
      requires Valid()
      reads characteristics
      ensures word == "round" || word == "square"
      ensures word == "round" <==> IsRound()
    {
      if IsRound() then "round" else "square"
    }

    /**
     * The piece's name: for a game id, five characters over {'0','1'} that
     * Integer.parseInt(_, 2) reads back as the id.
     */
    function BinaryStringRepresentation(): (name: string)
      requires IsInt(pieceID)
      ensures |name| >= 5
      ensures 0 <= pieceID < 32 ==>
        |name| == 5 && (forall i :: 0 <= i < 5 ==> name[i] in "01") && ParseInt(name, 2) == Some(pieceID)
    {
      if 0 <= pieceID < 32 then
        BinaryNameBits(pieceID);
        ParseBinaryName(pieceID);
        BinaryName(pieceID)
      else
        BinaryName(pieceID)
    }
  }
}
