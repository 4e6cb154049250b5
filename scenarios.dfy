// Positions worked through on the model: the starting position, where neither king is
// attacked; a move that exposes the mover's own king yet is accepted; a check that the
// king can step out of; and a rook move that is reported as checkmate.

module Scenarios {
  import opened Pieces
  import opened MoveGen
  import opened Rules

  /** The first square of a ray from (r, c) is off the board or holds a piece of p's side. */
  predicate Shut(b: Board, p: Piece, r: int, c: int) {
    OnBoard(r, c) ==> SameSide(p, b[Square(r, c)])
  }

  /** A ray whose first square is shut reaches nothing. */
  lemma RayShut(b: Board, p: Piece, r: int, c: int, d: (int, int), t: int)
    requires IsDir(d) && Shut(b, p, r, c)
    ensures !Reaches(b, p, r, c, d, t)
  {
    if OnBoard(r, c) {
      ReachesBlocked(b, p, r, c, d, t);
    }
  }

  /** A rook, bishop or queen whose every ray is shut at its first square generates
      nothing. */
  lemma SliderHemmedIn(b: Board, i: int, p: Piece, t: int)
    requires 0 <= i < 64 && p.Pc? && p.kind in {Rook, Bishop, Queen}
    requires forall d :: d in SliderDirs(p.kind) ==> Shut(b, p, Row(i) + d.0, Col(i) + d.1)
    ensures t !in Moves(b, i, p)
  {
    var dirs := SliderDirs(p.kind);
    forall d | d in dirs
      ensures !Reaches(b, p, Row(i) + d.0, Col(i) + d.1, d, t)
    {
      RayShut(b, p, Row(i) + d.0, Col(i) + d.1, d, t);
    }
    assert !SlideReaches(b, p, i, dirs, t);
    SliderMoves(b, i, p, t);
  }

  /** On the starting board every piece's generated moves stay in its own half: black's
      below index 32, white's at 32 or above. */
  lemma InitialMovesStayHome(i: int, t: int)
    requires 0 <= i < 64 && InitialBoard()[i] != Empty
    requires t in Moves(InitialBoard(), i, InitialBoard()[i])
    ensures if IsBlack(InitialBoard()[i]) then t < 32 else 32 <= t
  {
    InitialLayout();
    var b := InitialBoard();
    var p := b[i];
    if p.kind == Pawn {
      if p.white {
        WhitePawnTargets(b, i, t);
      } else {
        BlackPawnTargets(b, i, t);
      }
    } else if p.kind == Knight {
      KnightMoves(b, i, p, t);
    } else if p.kind == King {
      KingMoves(b, i, p, t);
    } else {
      assert i < 8 || 56 <= i;
      forall d | d in SliderDirs(p.kind)
        ensures Shut(b, p, Row(i) + d.0, Col(i) + d.1)
      {
        if OnBoard(Row(i) + d.0, Col(i) + d.1) {
          var n := Square(Row(i) + d.0, Col(i) + d.1);
          assert n < 16 || 48 <= n;
        }
      }
      SliderHemmedIn(b, i, p, t);
    }
  }

  /** At the start each side's king is found on its home square. */
  lemma InitialKings()
    ensures KingSquare(InitialBoard(), true) == Some(60)
    ensures KingSquare(InitialBoard(), false) == Some(4)
  {
    InitialLayout();
    KingSquareOfOnlyKing(InitialBoard(), true, 60);
    KingSquareOfOnlyKing(InitialBoard(), false, 4);
  }

  /** Neither side is in check at the start of a game. */
  lemma InitialNotInCheck()
    ensures !InCheck(InitialBoard(), true) && !InCheck(InitialBoard(), false)
  {
    InitialKings();
    var b := InitialBoard();
    if Attacked(b, 60, false) {
      var i :| AttacksFrom(b, i, 60, false);
      InitialMovesStayHome(i, 60);
    }
    if Attacked(b, 4, true) {
      var i :| AttacksFrom(b, i, 4, true);
      InitialMovesStayHome(i, 4);
    }
  }

  // ---------------------------------------------------------------------------
  // No self-check filter.

  /** White king on 63, a white bishop on 54 shielding it, a black bishop on 0. */
  function Pinned(): Board {
    EmptyBoard()[63 := Pc(King, true)][54 := Pc(Bishop, true)][0 := Pc(Bishop, false)]
  }

  /** The board after the shielding bishop steps from 54 to 47. */
  function Unpinned(): Board {
    EmptyBoard()[63 := Pc(King, true)][47 := Pc(Bishop, true)][0 := Pc(Bishop, false)]
  }

  lemma BishopStepsAside()
    ensures Pinned()[54] == Pc(Bishop, true) && 47 in Moves(Pinned(), 54, Pc(Bishop, true))
  {
    var b, wb := Pinned(), Pc(Bishop, true);
    assert Ray(b, wb, 5, 7, (-1, 1)) == [47];
    SlideMembership(b, wb, 6, 6, BishopDirs, 47);
  }

  /** The black bishop's one on-board diagonal ends on the white bishop. */
  lemma DiagonalBlocked()
    ensures 63 !in Moves(Pinned(), 0, Pc(Bishop, false))
  {
    var b, bb := Pinned(), Pc(Bishop, false);
    assert Ray(b, bb, 1, 1, (1, 1)) == [9, 18, 27, 36, 45, 54];
    SlideMembership(b, bb, 0, 0, BishopDirs, 63);
  }

  /** With the white bishop gone from 54 the diagonal runs to the king. */
  lemma DiagonalOpen()
    ensures 63 in Moves(Unpinned(), 0, Pc(Bishop, false))
  {
    var a, bb := Unpinned(), Pc(Bishop, false);
    assert Ray(a, bb, 1, 1, (1, 1)) == [9, 18, 27, 36, 45, 54, 63];
    SlideMembership(a, bb, 0, 0, BishopDirs, 63);
  }

  /** A side whose king stands on k alone has its king found on k. */
  lemma KingSquareOfOnlyKing(b: Board, white: bool, k: int)
    requires 0 <= k < 64 && forall i :: 0 <= i < 64 ==> (b[i] == Pc(King, white) <==> i == k)
    ensures KingSquare(b, white) == Some(k)
  {
    assert b[k] == Pc(King, white);
  }

  /** Moving the shielding bishop aside is accepted, and leaves the mover's own king in
      check: the move generator has no self-check filter, and neither has `movePiece`. */
  lemma NoSelfCheckFilter()
    ensures Accepts(Pinned(), 54, 47)
    ensures !InCheck(Pinned(), true)
    ensures InCheck(Apply(Pinned(), 54, 47), true)
  {
    BishopStepsAside();
    PinnedSafe();
    UnpinnedInCheck();
    BishopMoveBoard();
  }

  lemma BishopMoveBoard()
    ensures Apply(Pinned(), 54, 47) == Unpinned()
  {
    var a, u := Apply(Pinned(), 54, 47), Unpinned();
    assert forall i :: 0 <= i < 64 ==> a[i] == u[i];
  }

  /** With the bishop shielding it, the white king on 63 is not in check. */
  lemma PinnedSafe()
    ensures !InCheck(Pinned(), true)
  {
    var b := Pinned();
    KingSquareOfOnlyKing(b, true, 63);
    DiagonalBlocked();
    assert forall i :: 0 <= i < 64 && Owns(false, b[i]) ==> i == 0;
  }

  /** Once the bishop has stepped aside, the black bishop on 0 checks the king on 63. */
  lemma UnpinnedInCheck()
    ensures InCheck(Unpinned(), true)
  {
    var a := Unpinned();
    KingSquareOfOnlyKing(a, true, 63);
    DiagonalOpen();
    assert AttacksFrom(a, 0, 63, false);
  }

  // ---------------------------------------------------------------------------
  // Check with an escape.

  /** The white king steps from 63 to 62, off the black bishop's diagonal. */
  function KingAside(b: Board): Board {
    Trial(b, 63, 62)
  }

  lemma KingStepsToG(b: Board)
    requires b[63] == Pc(King, true) && b[62] == Empty
    ensures 62 in Moves(b, 63, Pc(King, true))
  {
    KingMoves(b, 63, Pc(King, true), 62);
  }

  /** A ray yields only squares of the ray. */
  lemma {:induction false} RayWithinSquares(b: Board, p: Piece, r: int, c: int, d: (int, int), t: int)
    requires IsDir(d) && t in Ray(b, p, r, c, d)
    ensures t in RaySquares(r, c, d)
    decreases RayMeasure(r, c, d)
  {
    if b[Square(r, c)] == Empty && t != Square(r, c) {
      RayWithinSquares(b, p, r + d.0, c + d.1, d, t);
    }
  }

  /** The black bishop in the corner 0 reaches only squares of the long diagonal,
      whatever else is on the board. */
  lemma CornerBishopStaysOnDiagonal(b: Board, t: int)
    requires t !in [9, 18, 27, 36, 45, 54, 63]
    ensures t !in Moves(b, 0, Pc(Bishop, false))
  {
    var bb := Pc(Bishop, false);
    assert RaySquares(1, 1, (1, 1)) == [9, 18, 27, 36, 45, 54, 63];
    if t in Ray(b, bb, 1, 1, (1, 1)) {
      RayWithinSquares(b, bb, 1, 1, (1, 1), t);
      assert false;
    }
    assert Ray(b, bb, 1, -1, (1, -1)) == Ray(b, bb, -1, 1, (-1, 1)) == Ray(b, bb, -1, -1, (-1, -1)) == [];
    SlideMembership(b, bb, 0, 0, BishopDirs, t);
    assert Moves(b, 0, bb) == Slide(b, bb, 0, 0, BishopDirs);
  }

  /** With its king on 62 and black's only piece the bishop on 0, white is not in check. */
  lemma KingOffDiagonal(a: Board)
    requires forall i :: 0 <= i < 64 ==> (a[i] == Pc(King, true) <==> i == 62)
    requires forall i :: 0 <= i < 64 && Owns(false, a[i]) ==> i == 0
    requires a[0] == Pc(Bishop, false)
    ensures !InCheck(a, true)
  {
    KingSquareOfOnlyKing(a, true, 62);
    CornerBishopStaysOnDiagonal(a, 62);
    assert !AttacksFrom(a, 0, 62, false);
  }

  lemma PinnedKingAside()
    ensures Escape(Pinned(), true, 63, 62)
  {
    KingStepsToG(Pinned());
    KingOffDiagonal(KingAside(Pinned()));
  }

  lemma UnpinnedKingAside()
    ensures Escape(Unpinned(), true, 63, 62)
  {
    KingStepsToG(Unpinned());
    KingOffDiagonal(KingAside(Unpinned()));
  }

  /** Before the bishop moves, white is not in check and can move; after it, white is in
      check but its king can step aside, so the move is reported as check, not mate. */
  lemma CheckWithEscape()
    ensures HasEscape(Pinned(), true) && Outcome(Pinned(), true) == Continues(false)
    ensures HasEscape(Unpinned(), true) && Outcome(Unpinned(), true) == Continues(true)
  {
    PinnedSafe();
    PinnedKingAside();
    assert PieceEscapes(Pinned(), true, 63);
    UnpinnedInCheck();
    UnpinnedKingAside();
    assert PieceEscapes(Unpinned(), true, 63);
  }

  // ---------------------------------------------------------------------------
  // Checkmate.

  /** White king on 56, black rooks on 0 and 5, black king on 7; black to move. White is
      already in check from the rook on 0 down the empty column 0, so this position arises
      only because `movePiece` lets a side end its move in check. */
  function BeforeMate(): Board {
    EmptyBoard()[56 := Pc(King, true)][0 := Pc(Rook, false)][5 := Pc(Rook, false)][7 := Pc(King, false)]
  }

  /** After the rook on 5 moves to 1: the rooks hold columns 0 and 1, and the white king
      on 56 has nowhere to go. */
  function Mated(): Board {
    EmptyBoard()[56 := Pc(King, true)][0 := Pc(Rook, false)][1 := Pc(Rook, false)][7 := Pc(King, false)]
  }

  /** Walking down column c from row s, a ray takes the empty squares and then the first
      piece it meets, on row e, when that piece opposes the walker. */
  lemma {:induction false} DownFileReaches(b: Board, p: Piece, s: int, c: int, e: int)
    requires 0 <= s <= e < 8 && 0 <= c < 8
    requires forall k :: s <= k < e ==> b[Square(k, c)] == Empty
    requires Opposes(p, b[Square(e, c)])
    ensures Square(e, c) in Ray(b, p, s, c, (1, 0))
    decreases e - s
  {
    if s < e {
      DownFileReaches(b, p, s + 1, c, e);
    }
  }

  /** Walking left along row r from column s, a ray takes every square down to column e
      when those squares are empty. */
  lemma {:induction false} LeftRankReaches(b: Board, p: Piece, r: int, s: int, e: int)
    requires 0 <= r < 8 && 0 <= e <= s < 8
    requires forall k :: e <= k <= s ==> b[Square(r, k)] == Empty
    ensures Square(r, e) in Ray(b, p, r, s, (0, -1))
    decreases s - e
  {
    if e < s {
      LeftRankReaches(b, p, r, s - 1, e);
    }
  }

  /** A black rook on column c of row 0 attacks the white king on row e of that column
      when every square between them is empty. */
  lemma RookOnFile(b: Board, c: int, e: int)
    requires 0 <= c < 8 && 1 <= e < 8 && b[c] == Pc(Rook, false) && b[Square(e, c)] == Pc(King, true)
    requires forall k :: 1 <= k < e ==> b[Square(k, c)] == Empty
    ensures AttacksFrom(b, c, Square(e, c), false)
  {
    DownFileReaches(b, Pc(Rook, false), 1, c, e);
    RookDownFile(b, c, Square(e, c));
  }

  /** What a rook on row 0 reaches walking down its column is among its moves. */
  lemma RookDownFile(b: Board, c: int, t: int)
    requires 0 <= c < 8 && t in Ray(b, Pc(Rook, false), 1, c, (1, 0))
    ensures t in Moves(b, c, Pc(Rook, false))
  {
    var br := Pc(Rook, false);
    assert Row(c) == 0 && Col(c) == c;
    assert (1, 0) in RookDirs;
    SlideMembership(b, br, 0, c, RookDirs, t);
    assert Moves(b, c, br) == Slide(b, br, 0, c, RookDirs);
  }

  /** The only moves of the white king on 56 are to 48, 49 and 57. */
  lemma MatedKingSteps(m: int)
    requires m in Moves(Mated(), 56, Pc(King, true))
    ensures m == 48 || m == 49 || m == 57
  {
    KingMoves(Mated(), 56, Pc(King, true), m);
    RowColOfSquare(m);
  }

  /** The white king in check after stepping to t, on row e and column c of the board a. */
  lemma TrialInCheck(a: Board, t: int, c: int, e: int)
    requires 0 <= c < 8 && 1 <= e < 8 && t == Square(e, c)
    requires forall i :: 0 <= i < 64 ==> (a[i] == Pc(King, true) <==> i == t)
    requires a[c] == Pc(Rook, false) && forall k :: 1 <= k < e ==> a[Square(k, c)] == Empty
    ensures InCheck(a, true)
  {
    KingSquareOfOnlyKing(a, true, t);
    RookOnFile(a, c, e);
  }

  lemma TrialTo48()
    ensures InCheck(Trial(Mated(), 56, 48), true)
  {
    TrialInCheck(Trial(Mated(), 56, 48), 48, 0, 6);
  }

  lemma TrialTo49()
    ensures InCheck(Trial(Mated(), 56, 49), true)
  {
    TrialInCheck(Trial(Mated(), 56, 49), 49, 1, 6);
  }

  lemma TrialTo57()
    ensures InCheck(Trial(Mated(), 56, 57), true)
  {
    TrialInCheck(Trial(Mated(), 56, 57), 57, 1, 7);
  }

  /** White, to move in the mated position, is in check and has no move out of it. */
  lemma MatedNoEscape()
    ensures InCheck(Mated(), true) && !HasEscape(Mated(), true)
  {
    var b, wk := Mated(), Pc(King, true);
    TrialInCheck(b, 56, 0, 7);
    forall i, m
      ensures !Escape(b, true, i, m)
    {
      if 0 <= i < 64 && Owns(true, b[i]) && m in Moves(b, i, b[i]) {
        assert i == 56;
        MatedKingSteps(m);
        if m == 48 {
          TrialTo48();
        } else if m == 49 {
          TrialTo49();
        } else {
          TrialTo57();
        }
      }
    }
  }

  /** Black's rook move 5 -> 1 is accepted, produces the mated position, and is reported
      as checkmate won by black. */
  lemma RookDeliversMate()
    ensures Accepts(BeforeMate(), 5, 1) && Apply(BeforeMate(), 5, 1) == Mated()
    ensures Outcome(Mated(), true) == Checkmate(false)
  {
    RookAlongRank(BeforeMate(), 5, 1);
    MateBoard();
    MatedNoEscape();
  }

  /** A black rook on column f of row 0 may move left to column t when the squares from
      t up to f are empty. */
  lemma RookAlongRank(b: Board, f: int, t: int)
    requires 0 <= t < f < 8 && b[f] == Pc(Rook, false)
    requires forall k :: t <= k < f ==> b[k] == Empty
    ensures Accepts(b, f, t)
  {
    var br := Pc(Rook, false);
    LeftRankReaches(b, br, 0, f - 1, t);
    assert (0, -1) in RookDirs;
    SlideMembership(b, br, 0, f, RookDirs, t);
    assert Moves(b, f, br) == Slide(b, br, Row(f), Col(f), RookDirs);
  }

  lemma MateBoard()
    ensures Apply(BeforeMate(), 5, 1) == Mated()
  {
    var a, m := Apply(BeforeMate(), 5, 1), Mated();
    assert forall i :: 0 <= i < 64 ==> a[i] == m[i];
  }
}
