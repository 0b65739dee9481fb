/** A chess piece instance and the queries `Piece.java` answers about it: its construction
    state, moving it, its equality and hash code, and which team of a game it belongs to. */
module Pieces {
  import opened JavaHash

  /** A movement-capability description; only compared for equality here. */
  type PieceType(==)

  /** A square of the board; only compared for equality here. */
  type ChessCoordinate(==)

  /** The team index reported for a piece that no team of the game holds. */
  const TEAMLESS_PIECE: int := -1

  /** A piece: an immutable identity (`id`, `pieceType`, `originalCoordinates`) and a
      mutable position and move count. */
  datatype Piece = Piece(
    id: Int64,
    pieceType: PieceType,
    originalCoordinates: ChessCoordinate,
    moveCount: Int32,
    coordinates: ChessCoordinate)

  /** A Java value handed to `equals(Object)`: a piece, or anything else (including `null`). */
  datatype JavaObject = PieceObject(piece: Piece) | OtherObject

  /** A player's pieces still on the board and the pieces of theirs that were captured. */
  datatype Team = Team(pieces: seq<Piece>, capturedPieces: seq<Piece>)

  /** A game, as far as a piece sees it: its teams in index order. */
  datatype Game = Game(teams: seq<Team>)

  /** The fields `equals` and `hashCode` look at; none of them ever changes. */
  datatype Identity = Identity(id: Int64, pieceType: PieceType, originalCoordinates: ChessCoordinate)

  function IdentityOf(p: Piece): Identity
  {
    Identity(p.id, p.pieceType, p.originalCoordinates)
  }

  /** `new Piece(id, pieceType, coordinates)`: it stands where it started and has not moved yet. */
  function NewPiece(id: Int64, pieceType: PieceType, coordinates: ChessCoordinate): (p: Piece)
    ensures p.coordinates == p.originalCoordinates == coordinates
    ensures p.moveCount == 0
    ensures p.id == id && p.pieceType == pieceType
  {
    Piece(id, pieceType, coordinates, 0, coordinates)
  }

  /** `setCoordinates`: the piece now stands on `coordinates`; nothing else about it changes,
      so it is still equal to what it was. */
  function SetCoordinates(p: Piece, coordinates: ChessCoordinate): (q: Piece)
    ensures q.coordinates == coordinates
    ensures IdentityOf(q) == IdentityOf(p) && q.moveCount == p.moveCount
    ensures Equals(q, PieceObject(p)) && Equals(p, PieceObject(q))
  {
    p.(coordinates := coordinates)
  }

  /** `equals(Object)`: a non-piece is never equal; a piece is equal exactly when its id,
      piece type and original coordinate are. The two mutable fields, position and move count,
      are the only ones that play no part: copying them over from the other piece makes the two
      identical values. */
  predicate Equals(p: Piece, other: JavaObject)
    ensures Equals(p, other) <==>
              other.PieceObject?
              && p.(coordinates := other.piece.coordinates, moveCount := other.piece.moveCount) == other.piece
  {
    match other
    case OtherObject => false
    case PieceObject(q) =>
      p.id == q.id && p.pieceType == q.pieceType && p.originalCoordinates == q.originalCoordinates
  }

  /** `hashCode()`: `Objects.hashCode(id, pieceType, originalCoordinates)`. The hash codes of a
      piece type and of a coordinate come from classes outside this model, so they are parameters. */
  function HashCode(p: Piece, typeHash: PieceType -> Int32, coordinateHash: ChessCoordinate -> Int32): (h: Int32)
    ensures h == Wrap32(29791 + 961 * LongHashCode(p.id) + 31 * typeHash(p.pieceType)
                        + coordinateHash(p.originalCoordinates))
  {
    var hs := [LongHashCode(p.id), typeHash(p.pieceType), coordinateHash(p.originalCoordinates)];
    ThreeElementHashCode(hs[0], hs[1], hs[2]);
    ArraysHashCode(hs)
  }

  /** `List.contains(p)`: some element `e` of `s` has `p.equals(e)`. */
  function Contains(s: seq<Piece>, p: Piece): (b: bool)
    ensures b <==> exists i :: 0 <= i < |s| && Equals(p, PieceObject(s[i]))
  {
    if |s| == 0 then false
    else Equals(p, PieceObject(s[0])) || Contains(s[1..], p)
  }

  /** The test of one loop iteration of `getTeamId`: the team holds `p`, captured or active. */
  predicate HoldsPiece(team: Team, p: Piece)
  {
    Contains(team.capturedPieces, p) || Contains(team.pieces, p)
  }

  /** `getTeamId` from loop index `start` on: the first index at or after `start` whose team
      holds `p`, or `TEAMLESS_PIECE` if none does. */
  function FindTeamFrom(teams: seq<Team>, p: Piece, start: nat): (r: int)
    requires start <= |teams|
    ensures r == TEAMLESS_PIECE || start <= r < |teams|
    ensures r != TEAMLESS_PIECE ==> HoldsPiece(teams[r], p)
    ensures r != TEAMLESS_PIECE ==> forall j :: start <= j < r ==> !HoldsPiece(teams[j], p)
    ensures r == TEAMLESS_PIECE <==> forall j :: start <= j < |teams| ==> !HoldsPiece(teams[j], p)
    decreases |teams| - start
  {
    if start == |teams| then TEAMLESS_PIECE
    else if HoldsPiece(teams[start], p) then start
    else FindTeamFrom(teams, p, start + 1)
  }

  /** `getTeamId(game)`: the lowest index of a team that holds `p` among its captured or its
      active pieces, or `TEAMLESS_PIECE` when no team does. */
  function GetTeamId(p: Piece, game: Game): (r: int)
    ensures r == TEAMLESS_PIECE || 0 <= r < |game.teams|
    ensures r != TEAMLESS_PIECE ==> HoldsPiece(game.teams[r], p)
    ensures r != TEAMLESS_PIECE ==> forall j :: 0 <= j < r ==> !HoldsPiece(game.teams[j], p)
    ensures r == TEAMLESS_PIECE <==> forall j :: 0 <= j < |game.teams| ==> !HoldsPiece(game.teams[j], p)
  {
    FindTeamFrom(game.teams, p, 0)
  }
}
