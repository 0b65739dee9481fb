# ChessCrafter `Piece` in Dafny

This project models the piece instance of the ChessCrafter chess-variant engine, `Piece.java`, and
proves what it promises. A piece has an immutable identity: a `long` id, a piece type and the square
it started on. It also has mutable state: its current square and its move count. The model covers:

- construction, where the piece stands on its starting square with move count 0;
- `setCoordinates`, which changes only the current square;
- `equals(Object)` and `hashCode()`, which look only at the three identity fields;
- `getTeamId(Game)`, a first-match linear search over the game's teams. It asks whether a team's
  captured list or active list `contains` the piece, so membership is tested with `equals`, not
  object identity. If no team holds the piece, the result is the sentinel `TEAMLESS_PIECE = -1`.

Files:

- `java_hash.dfy` (module `JavaHash`): Java `int`/`long` ranges, 32-bit wrap-around, `Long.hashCode`
  (XOR of the two 32-bit halves, with XOR written out bit by bit), and the `31 * result + h` fold
  that `Objects.hashCode(a, b, c)` performs.
- `pieces.dfy` (module `Pieces`): the `Piece`, `Team` and `Game` datatypes and the operations of
  `Piece.java`. The Java getters are the datatype's fields.
- `piece_properties.dfy` (module `PieceProperties`): lemmas relating the operations.

`PieceType` and `ChessCoordinate` are abstract types with value equality. Their hash codes come from
classes outside this model, so `HashCode` takes them as function parameters. A `Team` is a pair of
sequences (active pieces, captured pieces) and a `Game` is the sequence of its teams. The `Object`
that `equals` receives is `JavaObject`: either a piece or some other value. `null` counts as some
other value, because `null instanceof Piece` is false.

`Piece.equals` compares id, piece type and original coordinate (`Piece.java:71-73`), and
`Piece.hashCode` hashes the same three fields. The TODO at `Piece.java:70` says that mutable state
should stay out of `equals`. It is kept out: the current square and the move count play no part in
either method, which is why the model can prove that moving a piece never changes its equality,
hash code or team.

## Model

| member | source | states |
|---|---|---|
| Pieces.NewPiece | ChessCrafterShared/src/main/java/com/drewhannay/chesscrafter/models/Piece.java:14-23 | a new piece's current square equals its original square, which is the given one; its move count is 0; it keeps the given id and type |
| Pieces.SetCoordinates | ChessCrafterShared/src/main/java/com/drewhannay/chesscrafter/models/Piece.java:45-47 | afterwards the piece stands on the new square; identity fields and move count are unchanged; the result is equal to the old piece in both directions |
| Pieces.Equals | ChessCrafterShared/src/main/java/com/drewhannay/chesscrafter/models/Piece.java:63-74 | `equals` is false for anything that is not a piece; for a piece it holds exactly when the two become identical values once the current square and move count are copied over, so those two mutable fields are the only ones ignored |
| Pieces.HashCode | ChessCrafterShared/src/main/java/com/drewhannay/chesscrafter/models/Piece.java:76-79 | the hash is the closed form `29791 + 961*Long.hashCode(id) + 31*typeHash + coordinateHash`, wrapped to 32 bits |
| Pieces.Contains | ChessCrafterShared/src/main/java/com/drewhannay/chesscrafter/models/Piece.java:51 | `contains` is true exactly when some element of the list is `equals` to the piece |
| Pieces.FindTeamFrom | ChessCrafterShared/src/main/java/com/drewhannay/chesscrafter/models/Piece.java:49-55 | the loop from index `start` returns the first index at or after `start` whose team holds the piece, or -1 exactly when no such team exists |
| Pieces.GetTeamId | ChessCrafterShared/src/main/java/com/drewhannay/chesscrafter/models/Piece.java:49-55 | the result is -1 or a valid team index; if it is an index, that team holds the piece in its captured or active list and no lower-indexed team does; it is -1 exactly when no team holds the piece |
| JavaHash.LongHashCode | ChessCrafterShared/src/main/java/com/drewhannay/chesscrafter/models/Piece.java:78 | `Long.hashCode` of the `long` id: an id in `[0, 2^31)` hashes to itself; an id in `[-2^31, 0)` hashes to `-id - 1`, because its all-ones high half complements the low half |
| JavaHash.ArraysHashCode | ChessCrafterShared/src/main/java/com/drewhannay/chesscrafter/models/Piece.java:78 | the `int` fold behind `Objects.hashCode` (start at 1, `31 * result + h` per element) equals the exact polynomial `31^n + sum h_i*31^(n-1-i)`, wrapped once to 32 bits |
| JavaHash.ThreeElementHashCode | ChessCrafterShared/src/main/java/com/drewhannay/chesscrafter/models/Piece.java:78 | `Objects.hashCode(a, b, c)` is `29791 + 961a + 31b + c` wrapped to 32 bits |
| PieceProperties.MovesKeepIdentity | ChessCrafterShared/src/main/java/com/drewhannay/chesscrafter/models/Piece.java:45-47 | after any sequence of `setCoordinates` calls, the piece stands on the last square given, keeps its move count and identity, and is equal to what it was |
| PieceProperties.FreshPieceMovedStaysEqual | ChessCrafterShared/src/main/java/com/drewhannay/chesscrafter/models/Piece.java:14-23 | a newly built piece, however it is moved, stays equal to a new piece built from the same arguments and keeps move count 0 |
| PieceProperties.EqualsIsEquivalence | ChessCrafterShared/src/main/java/com/drewhannay/chesscrafter/models/Piece.java:63-74 | `equals` is reflexive, symmetric and transitive over pieces |
| PieceProperties.EqualsIgnoresMutableState | ChessCrafterShared/src/main/java/com/drewhannay/chesscrafter/models/Piece.java:70-73 | replacing either piece's current square and move count never changes the result of `equals` |
| PieceProperties.MoveKeepsEquality | ChessCrafterShared/src/main/java/com/drewhannay/chesscrafter/models/Piece.java:63-74 | moving either piece does not change whether the two are equal |
| PieceProperties.HashCodeConsistentWithEquals | ChessCrafterShared/src/main/java/com/drewhannay/chesscrafter/models/Piece.java:63-79 | equal pieces have equal hash codes, for any hash codes of piece types and squares |
| PieceProperties.MoveKeepsHashCode | ChessCrafterShared/src/main/java/com/drewhannay/chesscrafter/models/Piece.java:76-79 | moving a piece never changes its hash code |
| PieceProperties.SmallIdHashCode | ChessCrafterShared/src/main/java/com/drewhannay/chesscrafter/models/Piece.java:76-79 | for an id in `[0, 2^31)`, the hash is `29791 + 961*id + 31*typeHash + coordinateHash` wrapped to 32 bits |
| PieceProperties.ContainsRespectsEquals | ChessCrafterShared/src/main/java/com/drewhannay/chesscrafter/models/Piece.java:51 | `contains` answers the same for any two equal pieces |
| PieceProperties.TeamIdRespectsEquals | ChessCrafterShared/src/main/java/com/drewhannay/chesscrafter/models/Piece.java:49-55 | equal pieces are reported on the same team |
| PieceProperties.TeamIdUnchangedByMove | ChessCrafterShared/src/main/java/com/drewhannay/chesscrafter/models/Piece.java:45-55 | `setCoordinates` never changes the result of `getTeamId` |
| PieceProperties.TeamIdOfSoleHolder | ChessCrafterShared/src/main/java/com/drewhannay/chesscrafter/models/Piece.java:49-53 | when exactly one team holds the piece, that team's index is returned |
| PieceProperties.TeamIdAtMost | ChessCrafterShared/src/main/java/com/drewhannay/chesscrafter/models/Piece.java:49-53 | a piece listed on team `k` gets a valid index no greater than `k` |
| PieceProperties.TeamIdIgnoresLaterTeams | ChessCrafterShared/src/main/java/com/drewhannay/chesscrafter/models/Piece.java:49-53 | appending teams after a found team does not change the result |
| PieceProperties.LookupByEqualityExample | ChessCrafterShared/src/main/java/com/drewhannay/chesscrafter/models/Piece.java:49-55 | a moved copy of a listed piece is found on the listing team; a piece with a different id gets -1 |

## Left out

- `FileManager.java`: OS detection, hidden-folder process calls, directory creation, file writes,
  JSON and PNG serialisation and file dialogs. All of it is I/O with no logic of its own to prove.
- `getMovesFrom`: it returns `null` and has a TODO in place of a body, so there is no behaviour to model.
- `toString`: it delegates to `PieceType.toString`, which is not part of this model.
- `PieceType`, `ChessCoordinate`, `Team` and `Game` internals are not part of this model. The first
  two are abstract types with value equality. Their `equals` is taken to be value equality, and
  their `hashCode` is a parameter. Team and game are plain sequences.
- `null` fields: the model gives every piece a piece type and coordinates. The `null` branches of
  Guava's `Objects.equal`/`Objects.hashCode` are therefore not modelled.
- `getTeamId` null paths: Java throws `NullPointerException` when `game` is null, when `getTeams()`
  returns null, when a team entry of that array is null, or when `getPieces()` or
  `getCapturedPieces()` returns null. `Game` and `Team` here always hold sequences, so these
  paths are not modelled. Null elements inside the lists need no model: `equals(null)` is false.
- Move-count increments: nothing in `Piece.java` changes `mMoveCount` after construction, so the
  model never changes it either.
- Object identity: Java pieces are mutable objects shared by reference. The model treats them as
  values, and `setCoordinates` returns the updated piece.
