// King search, attack, check, the trial move of the mobility test and the outcome of an
// accepted move, as functions on a board value.

module Rules {
  import opened Pieces
  import opened MoveGen

  /** The first square at or after `from` holding the king of the side. */
  function FirstKing(b: Board, white: bool, from: int): (k: Option<int>)
    requires 0 <= from <= 64
    ensures k.None? ==> forall i :: from <= i < 64 ==> b[i] != Pc(King, white)
    ensures k.Some? ==>
      from <= k.value < 64 && b[k.value] == Pc(King, white) &&
      (forall i :: from <= i < k.value ==> b[i] != Pc(King, white))
    decreases 64 - from
  {
    if from == 64 then None
    else if b[from] == Pc(King, white) then Some(from)
    else FirstKing(b, white, from + 1)
  }

  /** `findKing`: the lowest square holding the side's king, None when there is none. */
  function KingSquare(b: Board, white: bool): Option<int> {
    FirstKing(b, white, 0)
  }

  /** `squareAttacked(sq, byWhite)`: some piece of that side has sq among its generated
      moves (pawn pushes included). */
  ghost predicate Attacked(b: Board, sq: int, byWhite: bool) {
    exists i :: AttacksFrom(b, i, sq, byWhite)
  }

  /** The piece on square i belongs to that side and has sq among its generated moves. */
  ghost predicate AttacksFrom(b: Board, i: int, sq: int, byWhite: bool) {
    0 <= i < 64 && Owns(byWhite, b[i]) && sq in Moves(b, i, b[i])
  }

  /** `isInCheck(side)`: false when the side has no king, otherwise whether its king's
      square is attacked by the other side. */
  ghost predicate InCheck(b: Board, white: bool) {
    match KingSquare(b, white)
    case None => false
    case Some(k) => Attacked(b, k, !white)
  }

  /** The board during the trial of the move i -> m inside the mobility test: the piece is
      written to m and i is cleared. A destination off the board holds nothing that any
      scan reads, so only the cleared origin is kept. */
  function Trial(b: Board, i: int, m: int): Board
    requires 0 <= i < 64
  {
    (if 0 <= m < 64 then b[m := b[i]] else b)[i := Empty]
  }

  /** Moving the side's piece from i to m is generated and leaves the side not in check. */
  ghost predicate Escape(b: Board, white: bool, i: int, m: int) {
    0 <= i < 64 && Owns(white, b[i]) && m in Moves(b, i, b[i]) && !InCheck(Trial(b, i, m), white)
  }

  /** What `hasLegalMoves(side)` decides. */
  ghost predicate HasEscape(b: Board, white: bool) {
    exists i :: PieceEscapes(b, white, i)
  }

  /** Some generated move of the piece on square i is an escape. */
  ghost predicate PieceEscapes(b: Board, white: bool, i: int) {
    exists m :: Escape(b, white, i, m)
  }

  // ---------------------------------------------------------------------------
  // The scans of `squareAttacked` and `hasLegalMoves`, one square at a time.

  /** No piece on a square below n attacks sq for the side. */
  ghost predicate NoAttackerBelow(b: Board, sq: int, byWhite: bool, n: int)
    decreases n
  {
    n <= 0 || (NoAttackerBelow(b, sq, byWhite, n - 1) && !AttacksFrom(b, n - 1, sq, byWhite))
  }

  /** A scan prefix that found no attacker rules out every square below n. */
  lemma {:induction false} NoAttackerAt(b: Board, sq: int, byWhite: bool, n: int, j: int)
    requires NoAttackerBelow(b, sq, byWhite, n) && 0 <= j < n
    ensures !AttacksFrom(b, j, sq, byWhite)
    decreases n
  {
    if j < n - 1 {
      NoAttackerAt(b, sq, byWhite, n - 1, j);
    }
  }

  /** A scan of all 64 squares that finds no attacker shows the square is not attacked. */
  lemma NotAttacked(b: Board, sq: int, byWhite: bool)
    requires NoAttackerBelow(b, sq, byWhite, 64)
    ensures !Attacked(b, sq, byWhite)
  {
    forall j | 0 <= j < 64
      ensures !AttacksFrom(b, j, sq, byWhite)
    {
      NoAttackerAt(b, sq, byWhite, 64, j);
    }
  }

  /** No piece on a square below n has an escape. */
  ghost predicate NoEscapeBelow(b: Board, white: bool, n: int)
    decreases n
  {
    n <= 0 || (NoEscapeBelow(b, white, n - 1) && !PieceEscapes(b, white, n - 1))
  }

  /** A scan prefix that found no escape rules out every square below n. */
  lemma {:induction false} NoEscapeAt(b: Board, white: bool, n: int, j: int)
    requires NoEscapeBelow(b, white, n) && 0 <= j < n
    ensures !PieceEscapes(b, white, j)
    decreases n
  {
    if j < n - 1 {
      NoEscapeAt(b, white, n - 1, j);
    }
  }

  /** A scan of all 64 squares that finds no escape shows the side has none. */
  lemma NoEscape(b: Board, white: bool)
    requires NoEscapeBelow(b, white, 64)
    ensures !HasEscape(b, white)
  {
    forall j | 0 <= j < 64
      ensures !PieceEscapes(b, white, j)
    {
      NoEscapeAt(b, white, 64, j);
    }
  }

  /** Every move in ms, tried from square i, leaves the side in check. */
  ghost predicate AllStayInCheck(b: Board, white: bool, i: int, ms: seq<int>)
    requires 0 <= i < 64
    decreases |ms|
  {
    ms == [] || (AllStayInCheck(b, white, i, ms[..|ms| - 1]) && InCheck(Trial(b, i, ms[|ms| - 1]), white))
  }

  /** Each move of such a list leaves the side in check. */
  lemma {:induction false} StaysInCheckOn(b: Board, white: bool, i: int, ms: seq<int>, m: int)
    requires 0 <= i < 64 && AllStayInCheck(b, white, i, ms) && m in ms
    ensures InCheck(Trial(b, i, m), white)
    decreases |ms|
  {
    var front, last := ms[..|ms| - 1], ms[|ms| - 1];
    if m != last {
      assert ms == front + [last];
      StaysInCheckOn(b, white, i, front, m);
    }
  }

  /** A trial that leaves the side in check extends the list of such trials by one. */
  lemma StaysInCheckStep(b: Board, white: bool, i: int, ms: seq<int>, k: int)
    requires 0 <= i < 64 && 0 <= k < |ms|
    requires AllStayInCheck(b, white, i, ms[..k]) && InCheck(Trial(b, i, ms[k]), white)
    ensures AllStayInCheck(b, white, i, ms[..k + 1])
  {
    assert ms[..k + 1][..k] == ms[..k];
  }

  /** Only generated moves can be escapes, so when every one of them leaves the side in
      check, the piece has none. */
  lemma NoEscapeAmong(b: Board, white: bool, i: int, moves: seq<int>)
    requires 0 <= i < 64 && moves == Moves(b, i, b[i])
    requires AllStayInCheck(b, white, i, moves)
    ensures !PieceEscapes(b, white, i)
  {
    forall m
      ensures !Escape(b, white, i, m)
    {
      if m in moves {
        StaysInCheckOn(b, white, i, moves, m);
      }
    }
  }

  // ---------------------------------------------------------------------------
  // Accepting a move.

  /** What `movePiece` reports. */
  datatype MoveResult =
    | Rejected                   // empty origin, or a destination not generated: nothing changes
    | Continues(inCheck: bool)   // accepted; whether the side now to move is in check
    | Checkmate(whiteWins: bool) // accepted; the side now to move is in check with no escape

  /** `movePiece` accepts a move when the origin holds a piece and the destination is among
      that piece's generated moves. The side to move is not consulted. */
  ghost predicate Accepts(b: Board, from: int, to: int)
    requires 0 <= from < 64
  {
    b[from] != Empty && to in Moves(b, from, b[from])
  }

  /** The board after an accepted move: the piece is written to `to`, then `from` is cleared. */
  function Apply(b: Board, from: int, to: int): Board
    requires 0 <= from < 64 && 0 <= to < 64
  {
    b[to := b[from]][from := Empty]
  }

  /** The report after an accepted move, for the side now to move: checkmate (won by the
      other side) when it is in check and has no escape, otherwise whether it is in check. */
  ghost function Outcome(b: Board, sideToMove: bool): MoveResult {
    if InCheck(b, sideToMove) && !HasEscape(b, sideToMove) then Checkmate(!sideToMove)
    else Continues(InCheck(b, sideToMove))
  }

  // ---------------------------------------------------------------------------
  // Properties.

  /** The king search finds the side's king exactly when it is on the board. */
  lemma KingSquareFound(b: Board, white: bool)
    ensures KingSquare(b, white).Some? <==> exists i :: 0 <= i < 64 && b[i] == Pc(King, white)
  {
  }

  /** A side that is attacked on an occupied square is attacked on a piece of the other
      side: no piece attacks its own side, so a side's own king is never the reason. */
  lemma AttackedOccupiedIsOpponent(b: Board, sq: int, byWhite: bool)
    requires 0 <= sq < 64 && b[sq] != Empty && Attacked(b, sq, byWhite)
    ensures Owns(!byWhite, b[sq])
  {
    var i :| AttacksFrom(b, i, sq, byWhite);
    CapturesOnlyOpponents(b, i, b[i], sq);
  }

  /** An accepted move moves one piece: `to` receives it, `from` is cleared, every other
      square is unchanged, and what was on `to` was empty or of the other side. */
  lemma AcceptedMove(b: Board, from: int, to: int)
    requires 0 <= from < 64 && 0 <= to < 64 && Accepts(b, from, to)
    ensures from != to
    ensures Apply(b, from, to)[to] == b[from] && Apply(b, from, to)[from] == Empty
    ensures forall j :: 0 <= j < 64 && j != from && j != to ==> Apply(b, from, to)[j] == b[j]
    ensures b[to] == Empty || Opposes(b[from], b[to])
  {
    var p := b[from];
    if p.kind == Pawn {
      if p.white {
        WhitePawnTargets(b, from, to);
      } else {
        BlackPawnTargets(b, from, to);
      }
    } else {
      PiecesStayOnBoard(b, from, p, to);
    }
    if b[to] != Empty {
      CapturesOnlyOpponents(b, from, p, to);
    }
  }

  /** The trial of the mobility test keeps the rest of the board, and for an on-board
      destination it is exactly the board an accepted move would produce. */
  lemma TrialIsApply(b: Board, i: int, m: int)
    requires 0 <= i < 64 && 0 <= m < 64 && Accepts(b, i, m)
    ensures Trial(b, i, m) == Apply(b, i, m)
  {
  }

  /** A side without a king is never in check and so is never checkmated. */
  lemma NoKingNoCheck(b: Board, white: bool)
    requires forall i :: 0 <= i < 64 ==> b[i] != Pc(King, white)
    ensures !InCheck(b, white) && !Outcome(b, white).Checkmate?
  {
  }
}
