# A verified model of the rules core of a browser chess game

The game in `main.js` keeps a 64-cell board of one-letter piece codes (upper case for
white, lower case for black, `""` for an empty square), a side to move and a selected
square. Its rules core is `getLegalMoves`, which generates pseudo-legal destinations per
piece type. Around it sit:

- `findKing`, `squareAttacked` and `isInCheck`, the check test;
- `hasLegalMoves`, the mobility test, which tries every generated move on the live board
  and undoes it;
- `movePiece` and `onSquareClick`, the move and selection logic;
- `resetGame` with `initialBoard`.

The project models that core in five modules:

- `Pieces` (`pieces.dfy`) covers the cells as a datatype, the codes and the case-based
  `isWhite`/`isBlack` classifier on them, and the starting layout.
- `MoveGen` (`movegen.dfy`) states `getLegalMoves` as functions on a board value:
  - `Add` is the `add` closure.
  - `Jumps` is the knight and king offset lists.
  - `Ray` and `Slide` are the `slide` loop.
  - The two pawn branches keep their raw index offsets.

  Lemmas characterise each piece's destinations geometrically.
- `Rules` (`rules.dfy`) covers the king search, attack, check, the trial board of the
  mobility test, and what an accepted move does and reports.
- `Scenarios` (`scenarios.dfy`) works out concrete positions:
  - the starting position;
  - a move that exposes the mover's own king;
  - a check the king can step out of;
  - a rook move that `movePiece` reports as checkmate.
- `Game` (`game.dfy`) is the class `ChessGame`, holding the program's state (`board` as
  an `array<Piece>`, `whiteToMove`, `selectedIndex`). Its methods follow the source's
  loops and in-place updates, and each is proved against the functions above.

The model keeps the source's behaviour where it departs from chess:

- A pawn's diagonal offsets (`index-7`, `index-9`, `index+7`, `index+9`) are not checked
  against the column, so a pawn on an edge file can "capture" on the far edge of the board:
  - `index-7` from column 7 (white) and `index+7` from column 0 (black) land on the first
    or last column of the pawn's own row (`MoveGen.PawnWrapAround`);
  - `index-9` from column 0 (white) and `index+9` from column 7 (black) land on the far
    column two rows ahead (`MoveGen.PawnWrapTwoRows`). A white pawn on column 0 is never
    offered a square of its own row (`MoveGen.WhitePawnLeavesRow`).
- The pushes are not bounded by the board edge. A read off the board is `undefined`,
  which counts as empty, so a white pawn on index 3 (row 0) is offered index `-5`
  (`MoveGen.PawnPushesLeaveBoard`).
- `squareAttacked` counts pawn pushes as attacks.
- Moves are not filtered for self-check (`Scenarios.NoSelfCheckFilter`).
- `movePiece` does not check whose turn it is. Only `onSquareClick`'s selection does.
- Stalemate is not distinguished from an ordinary position.

## Model

| member | source | states |
|---|---|---|
| Pieces.CodeRoundTrip | main.js:185-194 | every cell's one-letter code (the letters of the starting layout, `""` for empty) reads back as that cell |
| Pieces.ClassifierOnCodes | main.js:175-181 | `isWhite` on a cell's code holds exactly for white pieces and `isBlack` exactly for black pieces; `""` is neither |
| Pieces.IsWhiteCode | main.js:175-177 | `isWhite`: the code is non-empty and equal to its upper-cased form |
| Pieces.IsBlackCode | main.js:179-181 | `isBlack`: the code is non-empty and equal to its lower-cased form |
| Pieces.ExactlyOneSide | main.js:175-181 | on the codes, `isWhite` and `isBlack` both reject `""`, and every piece's letter passes exactly one of them |
| Pieces.InitialBoard | main.js:184-195 | `initialBoard`: black's back rank and pawns on rows 0 and 1, four empty rows, white's pawns and back rank on rows 6 and 7 |
| Pieces.InitialLayout | main.js:184-195 | rows 2-5 are empty, black holds indices 0-15 and white 48-63, the two sides mirror each other across the middle, and the only kings are black's on 4 and white's on 60 |
| MoveGen.At | main.js:102-113 | a read of the board: the cell for an index in 0..63, the empty cell for any other index, as an `undefined` read is falsy and no piece |
| MoveGen.Add | main.js:39-45 | `add(r, c)`: nothing when (r, c) is off the board or holds a piece of the mover's side, otherwise the square `r*8+c` |
| MoveGen.Jumps | main.js:54 | `add` applied to each offset of a list, in order, the results concatenated |
| MoveGen.Ray | main.js:60-72 | the `while` loop of one direction: empty squares are taken, the first occupied square is taken only if it holds an opposing piece, and the walk stops there or at the edge |
| MoveGen.Slide | main.js:58-74 | `slide(directions)`: the rays of the directions, in order, concatenated |
| MoveGen.WhitePawnMoves | main.js:101-107 | the white pawn branch: `index-8` if empty, `index-16` from row 6 if both are empty, `index-7` and `index-9` if they hold black pieces, with reads off the board counting as empty |
| MoveGen.BlackPawnMoves | main.js:109-115 | the black pawn branch: `index+8`, `index+16` from row 1, `index+7` and `index+9` onto white pieces |
| MoveGen.Moves | main.js:34-118 | `getLegalMoves`: the dispatch on the piece, with the queen's rook slide before her bishop slide and nothing for an empty cell |
| MoveGen.AddKeeps | main.js:39-45 | `add(r, c)` pushes a square exactly when (r, c) is on the board, the square is `r*8+c`, and it does not hold a piece of the mover's side |
| MoveGen.AddIsJumpTarget | main.js:39-45 | `add` at offset d from index i keeps t exactly when t is on the board, t's row and column are i's shifted by d, and t is not the mover's own |
| MoveGen.JumpsMembership | main.js:54 | applying `add` over an offset list yields exactly the squares that one of the offsets reaches |
| MoveGen.KnightMoves | main.js:47-56 | a knight's destinations are exactly the on-board squares a (2,1)/(1,2) hop away that do not hold a piece of its own side |
| MoveGen.KingMoves | main.js:92-99 | a king's destinations are exactly the on-board neighbouring squares that do not hold a piece of its own side |
| MoveGen.KnightNearEdge | main.js:47-56 | a black knight on index 1 of an empty board is offered exactly 18, 16, 11, in the order of the offset list |
| MoveGen.RaySquaresGeometry | main.js:60-72 | the squares of a ray start at (r, c), advance one row and column step of the direction at a time, and end at the last square before the edge; the loop walks a prefix of them, breaking at the first piece it meets |
| MoveGen.RayProgress | main.js:60-72 | every visited square lies at or beyond the ray's start in the direction's row and column sense |
| MoveGen.RayAvoidsOrigin | main.js:60-61 | a ray starting one step from a piece never returns to the piece's own square |
| MoveGen.ReachesBlocked | main.js:64-68 | at an occupied square the walk stops, taking that square only if it holds an opposing piece |
| MoveGen.ReachesThrough | main.js:69-71 | at an empty square the walk takes it and continues one step further |
| MoveGen.RayMembership | main.js:62-72 | the walk of one direction pushes exactly the squares the ray reaches: on the ray, every earlier square empty, and the square itself empty or opposing |
| MoveGen.SlideMembership | main.js:58-74 | `slide(directions)` pushes exactly the union of what its directions' walks push |
| MoveGen.SliderMoves | main.js:76-90 | a rook, bishop or queen's destinations are exactly the squares one of its rays (4 orthogonal, 4 diagonal, or all 8) reaches |
| MoveGen.QueenReaches | main.js:86-90 | the queen's rook slide followed by her bishop slide reaches exactly what her eight rays reach |
| MoveGen.RayOnEmptyBoard | main.js:62-72 | on an empty board the walk runs to the edge |
| MoveGen.RookOnEmptyBoard | main.js:76-79 | a rook alone on the board has 14 destinations from every square |
| MoveGen.CapturesOnlyOpponents | main.js:34-118 | every generated destination on the board that holds a piece holds an opposing one, for every piece type: nothing captures its own side and pawn pushes never land on a piece |
| MoveGen.PiecesStayOnBoard | main.js:34-99 | every destination of a non-pawn piece is an index on the board other than its own square |
| MoveGen.WhitePawnTargets | main.js:101-107 | a white pawn is offered exactly: `index-8` if empty, `index-16` from row 6 if both squares are empty, and `index-7`/`index-9` if they hold a black piece; off-board reads count as empty |
| MoveGen.BlackPawnTargets | main.js:109-115 | the mirror image for black: `index+8`, `index+16` from row 1, and `index+7`/`index+9` onto white pieces |
| MoveGen.PawnWrapAround | main.js:104-105 | a white pawn on column 7 is offered a black piece on column 0 of its own row |
| MoveGen.PawnWrapTwoRows | main.js:105 | a white pawn on 48 (column 0) is offered a black piece on 39, the last column two rows ahead |
| MoveGen.WhitePawnLeavesRow | main.js:101-107 | a white pawn on column 0 is never offered an on-board square of its own row |
| MoveGen.PawnPushesLeaveBoard | main.js:101-115 | on an empty board a white pawn on index 3 (row 0) is offered only index -5, and a black pawn on index 60 (row 7) only index 68 |
| MoveGen.InitialPawnMoves | main.js:101-115 | on the starting board each pawn is offered exactly its one- and two-square pushes, in that order |
| Rules.KingSquare | main.js:120-128 | `findKing`: the search for the side's king from square 0 |
| Rules.Attacked | main.js:130-141 | `squareAttacked`: some piece of the side has the square among its generated moves |
| Rules.InCheck | main.js:143-147 | `isInCheck`: false without a king, otherwise whether the king's square is attacked by the other side |
| Rules.Trial | main.js:158-162 | the board during one trial of `hasLegalMoves`: the piece written to the destination, the origin cleared |
| Rules.HasEscape | main.js:149-173 | `hasLegalMoves`: some piece of the side has a generated move whose trial leaves the side not in check |
| Rules.Accepts | main.js:275-287 | `movePiece`'s validation: the origin holds a piece and `to` is among that piece's generated moves; the side to move is not consulted |
| Rules.Apply | main.js:297-298 | the board after an accepted move: the piece on `to`, `from` cleared |
| Rules.Outcome | main.js:302-308 | the report after an accepted move: checkmate won by the other side when the side to move is in check with no escape, otherwise whether it is in check |
| Rules.FirstKing | main.js:120-128 | the search from an index returns the first square at or after it holding the side's king, or None when no later square does |
| Rules.KingSquareFound | main.js:120-128 | `findKing` finds a square exactly when the side's king is on the board |
| Rules.AttackedOccupiedIsOpponent | main.js:130-141 | an occupied square attacked by a side holds a piece of the other side |
| Rules.NoKingNoCheck | main.js:143-147 | a side without a king is never in check and so never checkmated |
| Rules.NoAttackerAt | main.js:131-139 | once the attack scan has passed square n without finding an attacker, no square below n attacks the target |
| Rules.NotAttacked | main.js:130-141 | a scan of all 64 squares that finds no attacker shows the square is not attacked |
| Rules.StaysInCheckOn | main.js:157-170 | once the trials of a list of moves have all left the side in check, each move of the list does |
| Rules.StaysInCheckStep | main.js:157-170 | a trial that leaves the side in check extends the list of trials that did so by one move |
| Rules.NoEscapeAmong | main.js:156-170 | when every generated move of a piece leaves its side in check, that piece has no escape |
| Rules.NoEscapeAt | main.js:150-171 | once the mobility scan has passed square n without an escape, no square below n has one |
| Rules.NoEscape | main.js:149-173 | a scan of all 64 squares that finds no escape shows the side has none |
| Rules.TrialIsApply | main.js:158-162 | the trial board of the mobility test is the board an accepted move produces |
| Rules.AcceptedMove | main.js:274-299 | an accepted move has distinct ends, puts the piece on `to`, clears `from`, leaves every other square alone, and lands on an empty or opposing square |
| Scenarios.SliderHemmedIn | main.js:58-74 | a slider whose first square in every direction is off the board or held by its own side has no destinations |
| Scenarios.InitialMovesStayHome | main.js:34-118 | on the starting board every piece's destinations stay in its own half |
| Scenarios.InitialKings | main.js:120-128 | at the start `findKing` returns 60 for white and 4 for black |
| Scenarios.KingSquareOfOnlyKing | main.js:120-128 | a side whose king stands on exactly one square has it found there |
| Scenarios.InitialNotInCheck | main.js:143-147 | neither side is in check at the start |
| Scenarios.BishopStepsAside | main.js:81-84 | in the pinned position the shielding white bishop on 54 is offered 47 |
| Scenarios.DiagonalBlocked | main.js:58-74 | the black bishop on 0 does not reach the white king on 63 through the shielding bishop |
| Scenarios.DiagonalOpen | main.js:58-74 | once the shield has stepped aside, the black bishop on 0 reaches 63 |
| Scenarios.NoSelfCheckFilter | main.js:274-300 | a move that exposes the mover's own king is accepted: white is not in check before it and is in check after it |
| Scenarios.PinnedSafe | main.js:143-147 | with the bishop shielding it, the white king on 63 is not in check |
| Scenarios.UnpinnedInCheck | main.js:143-147 | once the shield has stepped aside, the black bishop on 0 checks the white king on 63 |
| Scenarios.CheckWithEscape | main.js:149-173 | in both positions the king's step from 63 to 62 is an escape; the report is "not in check" before the bishop moves and "in check" but not checkmate after it |
| Scenarios.MatedKingSteps | main.js:92-99 | the white king on 56 of the mate position can only be offered 48, 49 and 57 |
| Scenarios.TrialTo48 | main.js:158-164 | the king's trial step to 48 leaves it in check from the rook on 0 |
| Scenarios.TrialTo49 | main.js:158-164 | the king's trial step to 49 leaves it in check from the rook on 1 |
| Scenarios.TrialTo57 | main.js:158-164 | the king's trial step to 57 leaves it in check from the rook on 1 |
| Scenarios.MatedNoEscape | main.js:149-173 | in the mate position white is in check and `hasLegalMoves` finds no escape |
| Scenarios.RookDeliversMate | main.js:274-308 | black's rook move 5 -> 1 is accepted, produces the mate position, and is reported as checkmate won by black |
| Game.ChessGame.constructor | main.js:313-318 | the game starts on the initial board, white to move, nothing selected |
| Game.ChessGame.Reset | main.js:313-318 | `resetGame` installs a fresh initial board, white to move, nothing selected |
| Game.ChessGame.PushTarget | main.js:39-45 | the `add` closure appends exactly what `Add` keeps |
| Game.ChessGame.PushJumps | main.js:54 | the `forEach` over offsets appends exactly `Jumps` |
| Game.ChessGame.PushRay | main.js:60-72 | the `while` loop of one direction appends exactly `Ray` |
| Game.ChessGame.PushSlide | main.js:58-74 | `slide` appends exactly `Slide` over its directions |
| Game.ChessGame.WhitePawn | main.js:101-107 | the white pawn branch returns exactly the white pawn targets |
| Game.ChessGame.BlackPawn | main.js:109-115 | the black pawn branch returns exactly the black pawn targets |
| Game.ChessGame.GetLegalMoves | main.js:34-118 | `getLegalMoves` on the live board returns `Moves` of the board's contents, in order |
| Game.ChessGame.FindKing | main.js:120-128 | the scan returns the first square holding the side's king, or None |
| Game.ChessGame.SquareAttacked | main.js:130-141 | the scan reports true exactly when some piece of the side has the square among its generated moves |
| Game.ChessGame.IsInCheck | main.js:143-147 | false without a king, otherwise whether the king's square is attacked by the other side |
| Game.ChessGame.TryMove | main.js:158-168 | one trial leaves the board as it found it and reports whether the side is in check on the trial board |
| Game.ChessGame.TryPieceMoves | main.js:156-170 | trying a piece's moves in order leaves the board unchanged and finds a move exactly when one of them leaves the side out of check |
| Game.ChessGame.HasLegalMoves | main.js:149-173 | the board is unchanged afterwards, and the result is true exactly when some piece of the side has a generated move that leaves it out of check |
| Game.ChessGame.MovePiece | main.js:274-311 | an empty origin or an ungenerated destination only clears the selection; otherwise the piece moves, the turn flips, the selection clears, and the report is checkmate (won by the side that was to move) or whether the side now to move is in check |
| Game.ChessGame.OnSquareClick | main.js:247-272 | with no selection, selects a square holding a piece of the side to move; a click on the selected square deselects it; any other click attempts the move, and the selection stays owned by the side to move |

## Left out

- Rendering and the DOM are not modelled: `renderBoard`, the style element, the highlight
  of the selected piece's destinations, and the click and reset-button wiring.
- `updateStatus` is not modelled. `MovePiece` returns the checkmate verdict as a result
  value instead of writing the status line. In the source `renderBoard` then calls
  `updateStatus`, which overwrites the checkmate text with the turn line; that is display
  only.
- The `PIECES` glyph table, the move notation and the `moves` log with its list element
  are not modelled. They are display only, and `resetGame` does not clear the log.
- Game.ChessGame.TryMove: when a pawn push leads off the board, the source writes the piece
  to an index outside 0..63 (a property of the array, or a new element past 63) and
  restores it as `undefined` afterwards. The model skips that write and keeps only the
  cleared origin. During the trial no scan can read that index:
  - `findKing` and `squareAttacked` read only 0..63;
  - the only pieces scanned are the other side's;
  - black pawns read upward from their own index, and white pawns downward;
  - a white trial writes below 0, and a black trial writes at 64 or above.
- JavaScript's string typing is not modelled: a cell is a datatype, not an arbitrary
  string. Codes outside the twelve piece letters and `""` cannot occur on the board, and
  `Pieces.Decode` rejects them.
- Castling, en passant, promotion and stalemate are not modelled, because the source does
  not implement them.
