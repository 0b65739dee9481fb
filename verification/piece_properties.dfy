/** What `Piece.java` promises its callers, proved about the model in `Pieces`: equality is an
    equivalence over the immutable fields only, the hash code agrees with it, and the team
    lookup is a first-match search that moving a piece cannot disturb. */
module PieceProperties {
  import opened JavaHash
  import opened Pieces

  /** The piece after `setCoordinates` has been called with each square of `path` in turn. */
  function MoveAlong(p: Piece, path: seq<ChessCoordinate>): Piece
    decreases |path|
  {
    if |path| == 0 then p else MoveAlong(SetCoordinates(p, path[0]), path[1..])
  }

  /** However often a piece is moved, it stands on the last square it was moved to, keeps its
      move count (`setCoordinates` does not touch it) and stays equal to the piece it was. */
  lemma {:induction false} MovesKeepIdentity(p: Piece, path: seq<ChessCoordinate>)
    ensures Equals(MoveAlong(p, path), PieceObject(p))
    ensures IdentityOf(MoveAlong(p, path)) == IdentityOf(p)
    ensures MoveAlong(p, path).moveCount == p.moveCount
    ensures MoveAlong(p, path).coordinates == if |path| == 0 then p.coordinates else path[|path| - 1]
    decreases |path|
  {
    if |path| > 0 {
      var q := SetCoordinates(p, path[0]);
      MovesKeepIdentity(q, path[1..]);
      if |path| > 1 {
        assert path[1..][|path[1..]| - 1] == path[|path| - 1];
      }
    }
  }

  /** A fresh piece, moved anywhere, is still equal to a fresh piece built from the same
      arguments, and still has move count 0. */
  lemma FreshPieceMovedStaysEqual(id: Int64, pieceType: PieceType, start: ChessCoordinate,
                                  path: seq<ChessCoordinate>)
    ensures Equals(MoveAlong(NewPiece(id, pieceType, start), path), PieceObject(NewPiece(id, pieceType, start)))
    ensures MoveAlong(NewPiece(id, pieceType, start), path).moveCount == 0
  {
    MovesKeepIdentity(NewPiece(id, pieceType, start), path);
  }

  /** `equals` is reflexive, symmetric and transitive, as `Object.equals` must be. */
  lemma EqualsIsEquivalence(p: Piece, q: Piece, s: Piece)
    ensures Equals(p, PieceObject(p))
    ensures Equals(p, PieceObject(q)) <==> Equals(q, PieceObject(p))
    ensures Equals(p, PieceObject(q)) && Equals(q, PieceObject(s)) ==> Equals(p, PieceObject(s))
  {
  }

  /** Whatever the current squares and move counts of two pieces, they are equal or not
      exactly as their identities say: mutable state never changes the answer. */
  lemma EqualsIgnoresMutableState(p: Piece, q: Piece, c1: ChessCoordinate, c2: ChessCoordinate,
                                  m1: Int32, m2: Int32)
    ensures Equals(p.(coordinates := c1, moveCount := m1), PieceObject(q.(coordinates := c2, moveCount := m2)))
        <==> Equals(p, PieceObject(q))
  {
  }

  /** Moving either piece never changes whether the two are equal. */
  lemma MoveKeepsEquality(p: Piece, q: Piece, c: ChessCoordinate)
    ensures Equals(SetCoordinates(p, c), PieceObject(q)) <==> Equals(p, PieceObject(q))
    ensures Equals(p, PieceObject(SetCoordinates(q, c))) <==> Equals(p, PieceObject(q))
  {
  }

  /** Equal pieces have equal hash codes, whatever the hash codes of piece types and squares. */
  lemma HashCodeConsistentWithEquals(p: Piece, q: Piece, typeHash: PieceType -> Int32,
                                     coordinateHash: ChessCoordinate -> Int32)
    requires Equals(p, PieceObject(q))
    ensures HashCode(p, typeHash, coordinateHash) == HashCode(q, typeHash, coordinateHash)
  {
  }

  /** Moving a piece never changes its hash code, so a moved piece stays findable in hash sets. */
  lemma MoveKeepsHashCode(p: Piece, c: ChessCoordinate, typeHash: PieceType -> Int32,
                          coordinateHash: ChessCoordinate -> Int32)
    ensures HashCode(SetCoordinates(p, c), typeHash, coordinateHash) == HashCode(p, typeHash, coordinateHash)
  {
  }

  /** A piece whose id fits in an `int` hashes to `29791 + 961 * id + 31 * typeHash + coordinateHash`,
      wrapped to 32 bits. */
  lemma SmallIdHashCode(p: Piece, typeHash: PieceType -> Int32, coordinateHash: ChessCoordinate -> Int32)
    requires 0 <= p.id < 0x8000_0000
    ensures HashCode(p, typeHash, coordinateHash)
         == Wrap32(29791 + 961 * p.id + 31 * typeHash(p.pieceType) + coordinateHash(p.originalCoordinates))
  {
  }

  /** `contains` cannot tell equal pieces apart. */
  lemma ContainsRespectsEquals(s: seq<Piece>, p: Piece, q: Piece)
    requires Equals(p, PieceObject(q))
    ensures Contains(s, p) == Contains(s, q)
  {
  }

  /** Equal pieces report the same team. */
  lemma TeamIdRespectsEquals(p: Piece, q: Piece, game: Game)
    requires Equals(p, PieceObject(q))
    ensures GetTeamId(p, game) == GetTeamId(q, game)
  {
  }

  /** Moving a piece never changes the team it is reported on. */
  lemma TeamIdUnchangedByMove(p: Piece, c: ChessCoordinate, game: Game)
    ensures GetTeamId(SetCoordinates(p, c), game) == GetTeamId(p, game)
  {
    TeamIdRespectsEquals(SetCoordinates(p, c), p, game);
  }

  /** When exactly one team holds the piece, as in a game where every piece belongs to one
      team, the lookup reports that team. */
  lemma TeamIdOfSoleHolder(p: Piece, game: Game, k: nat)
    requires k < |game.teams| && HoldsPiece(game.teams[k], p)
    requires forall j :: 0 <= j < |game.teams| && j != k ==> !HoldsPiece(game.teams[j], p)
    ensures GetTeamId(p, game) == k
  {
  }

  /** A piece that stands in the active or captured list of team `k` itself (not just an equal
      copy) is reported on team `k` or on an earlier team. */
  lemma TeamIdAtMost(p: Piece, game: Game, k: nat)
    requires k < |game.teams| && (p in game.teams[k].pieces || p in game.teams[k].capturedPieces)
    ensures 0 <= GetTeamId(p, game) <= k
  {
    var t := game.teams[k];
    if p in t.pieces {
      var i :| 0 <= i < |t.pieces| && t.pieces[i] == p;
      assert Equals(p, PieceObject(t.pieces[i]));
    } else {
      var i :| 0 <= i < |t.capturedPieces| && t.capturedPieces[i] == p;
      assert Equals(p, PieceObject(t.capturedPieces[i]));
    }
  }

  /** Adding teams after the reported one does not change the answer. */
  lemma TeamIdIgnoresLaterTeams(p: Piece, game: Game, more: seq<Team>)
    requires GetTeamId(p, game) != TEAMLESS_PIECE
    ensures GetTeamId(p, Game(game.teams + more)) == GetTeamId(p, game)
  {
    var r := GetTeamId(p, game);
    var all := game.teams + more;
    assert HoldsPiece(all[r], p);
    assert forall j :: 0 <= j < r ==> all[j] == game.teams[j];
  }

  /** Membership is by equality, not by being the same object: a moved copy of a piece is found
      on the team that lists the piece, and a piece with another id is found on no team. */
  lemma LookupByEqualityExample(t: PieceType, start: ChessCoordinate, elsewhere: ChessCoordinate)
    ensures var listed := NewPiece(7, t, start);
            var game := Game([Team([], []), Team([listed], [])]);
            GetTeamId(SetCoordinates(listed, elsewhere), game) == 1
            && GetTeamId(NewPiece(8, t, start), game) == TEAMLESS_PIECE
  {
    var listed := NewPiece(7, t, start);
    var game := Game([Team([], []), Team([listed], [])]);
    assert !HoldsPiece(game.teams[0], listed);
    assert Equals(SetCoordinates(listed, elsewhere), PieceObject(game.teams[1].pieces[0]));
  }
}
