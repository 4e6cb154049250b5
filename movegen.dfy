// The pseudo-legal move generator of main.js (`getLegalMoves`), as functions on a board
// value, with the geometric properties each piece family promises.

module MoveGen {
  import opened Pieces

  /** A unit step: each component in -1..1, not both zero. */
  predicate IsDir(d: (int, int)) { -1 <= d.0 <= 1 && -1 <= d.1 <= 1 && d != (0, 0) }

  predicate OnBoard(r: int, c: int) { 0 <= r < 8 && 0 <= c < 8 }

  function Abs(x: int): int { if x < 0 then -x else x }

  const RookDirs: seq<(int, int)> := [(1, 0), (-1, 0), (0, 1), (0, -1)]
  const BishopDirs: seq<(int, int)> := [(1, 1), (1, -1), (-1, 1), (-1, -1)]
  const KnightJumps: seq<(int, int)> :=
    [(2, 1), (2, -1), (-2, 1), (-2, -1), (1, 2), (1, -2), (-1, 2), (-1, -2)]
  const KingSteps: seq<(int, int)> :=
    [(1, 0), (-1, 0), (0, 1), (0, -1), (1, 1), (1, -1), (-1, 1), (-1, -1)]

  /** A board with no piece on it. */
  function EmptyBoard(): Board { seq(64, _ => Empty) }

  /** Total lookup: a square off the board reads as empty, as an out-of-range
      array read does in the source. */
  function At(b: Board, i: int): Piece { if 0 <= i < 64 then b[i] else Empty }

  // ---------------------------------------------------------------------------
  // Knight and king: fixed offsets, filtered by `add`.

  /** `add(r, c)`: the square, if it is on the board and not held by the mover's side. */
  function Add(b: Board, p: Piece, r: int, c: int): seq<int> {
    if r < 0 || r > 7 || c < 0 || c > 7 then []
    else if IsWhite(p) && IsWhite(b[Square(r, c)]) then []
    else if IsBlack(p) && IsBlack(b[Square(r, c)]) then []
    else [Square(r, c)]
  }

  /** `add` applied to each offset in order. */
  function Jumps(b: Board, p: Piece, row: int, col: int, offs: seq<(int, int)>): seq<int>
    decreases |offs|
  {
    if offs == [] then []
    else
      var d := offs[|offs| - 1];
      Jumps(b, p, row, col, offs[..|offs| - 1]) + Add(b, p, row + d.0, col + d.1)
  }

  // ---------------------------------------------------------------------------
  // Rook, bishop and queen: rays walked by `slide`.

  /** Bounds the number of steps left before a ray leaves the board. */
  function RayMeasure(r: int, c: int, d: (int, int)): int {
    (if d.0 > 0 then 8 - r else if d.0 < 0 then r + 1 else 0) +
    (if d.1 > 0 then 8 - c else if d.1 < 0 then c + 1 else 0)
  }

  /** The squares of a ray: from (r, c) in steps of d until the board edge. */
  function RaySquares(r: int, c: int, d: (int, int)): (s: seq<int>)
    requires IsDir(d)
    ensures forall k :: 0 <= k < |s| ==> 0 <= s[k] < 64
    decreases RayMeasure(r, c, d)
  {
    if !OnBoard(r, c) then [] else [Square(r, c)] + RaySquares(r + d.0, c + d.1, d)
  }

  /** The inner loop of `slide` for one direction, starting at (r, c): empty squares are
      taken, the first occupied one is taken only if it holds an opposing piece, and the
      walk stops there or at the edge. */
  function Ray(b: Board, p: Piece, r: int, c: int, d: (int, int)): seq<int>
    requires IsDir(d)
    decreases RayMeasure(r, c, d)
  {
    if !OnBoard(r, c) then []
    else if b[Square(r, c)] != Empty then
      (if Opposes(p, b[Square(r, c)]) then [Square(r, c)] else [])
    else [Square(r, c)] + Ray(b, p, r + d.0, c + d.1, d)
  }

  /** `slide(directions)` from (row, col): the rays in the order given. */
  function Slide(b: Board, p: Piece, row: int, col: int, dirs: seq<(int, int)>): seq<int>
    requires forall d :: d in dirs ==> IsDir(d)
    decreases |dirs|
  {
    if dirs == [] then []
    else
      var d := dirs[|dirs| - 1];
      Slide(b, p, row, col, dirs[..|dirs| - 1]) + Ray(b, p, row + d.0, col + d.1, d)
  }

  /** Walking one more offset appends what `add` gives for it. */
  lemma JumpsStep(b: Board, p: Piece, row: int, col: int, offs: seq<(int, int)>, k: int)
    requires 0 <= k < |offs|
    ensures Jumps(b, p, row, col, offs[..k + 1]) ==
      Jumps(b, p, row, col, offs[..k]) + Add(b, p, row + offs[k].0, col + offs[k].1)
  {
    assert offs[..k + 1][..k] == offs[..k];
  }

  /** Walking one more direction appends its ray. */
  lemma SlideStep(b: Board, p: Piece, row: int, col: int, dirs: seq<(int, int)>, k: int)
    requires (forall d :: d in dirs ==> IsDir(d)) && 0 <= k < |dirs|
    ensures forall d :: d in dirs[..k + 1] ==> IsDir(d)
    ensures Slide(b, p, row, col, dirs[..k + 1]) ==
      Slide(b, p, row, col, dirs[..k]) + Ray(b, p, row + dirs[k].0, col + dirs[k].1, dirs[k])
  {
    assert dirs[..k + 1][..k] == dirs[..k];
  }

  /** Appending the next direction's ray to what the first k directions gave yields what
      the first k + 1 directions give. */
  lemma SlideAppend(b: Board, p: Piece, row: int, col: int, dirs: seq<(int, int)>, k: int,
                    moves0: seq<int>, before: seq<int>, after: seq<int>)
    requires (forall d :: d in dirs ==> IsDir(d)) && 0 <= k < |dirs|
    requires before == moves0 + Slide(b, p, row, col, dirs[..k])
    requires after == before + Ray(b, p, row + dirs[k].0, col + dirs[k].1, dirs[k])
    ensures after == moves0 + Slide(b, p, row, col, dirs[..k + 1])
  {
    SlideStep(b, p, row, col, dirs, k);
  }

  // ---------------------------------------------------------------------------
  // Pawns: raw index offsets, no column check and no row bound on the pushes.

  function WhitePawnMoves(b: Board, i: int): seq<int> {
    (if At(b, i - 8) == Empty then [i - 8] else []) +
    (if Row(i) == 6 && At(b, i - 8) == Empty && At(b, i - 16) == Empty then [i - 16] else []) +
    (if IsBlack(At(b, i - 7)) then [i - 7] else []) +
    (if IsBlack(At(b, i - 9)) then [i - 9] else [])
  }

  function BlackPawnMoves(b: Board, i: int): seq<int> {
    (if At(b, i + 8) == Empty then [i + 8] else []) +
    (if Row(i) == 1 && At(b, i + 8) == Empty && At(b, i + 16) == Empty then [i + 16] else []) +
    (if IsWhite(At(b, i + 7)) then [i + 7] else []) +
    (if IsWhite(At(b, i + 9)) then [i + 9] else [])
  }

  /** `getLegalMoves(index, piece)`: the pseudo-legal destinations, in the source's order. */
  function Moves(b: Board, i: int, p: Piece): seq<int>
    requires 0 <= i < 64
  {
    var row, col := Row(i), Col(i);
    match p
    case Empty => []
    case Pc(k, w) =>
      match k
      case Knight => Jumps(b, p, row, col, KnightJumps)
      case Rook => Slide(b, p, row, col, RookDirs)
      case Bishop => Slide(b, p, row, col, BishopDirs)
      case Queen => Slide(b, p, row, col, RookDirs) + Slide(b, p, row, col, BishopDirs)
      case King => Jumps(b, p, row, col, KingSteps)
      case Pawn => if w then WhitePawnMoves(b, i) else BlackPawnMoves(b, i)
  }

  // ---------------------------------------------------------------------------
  // Square arithmetic.

  lemma SquareOfRowCol(r: int, c: int)
    requires OnBoard(r, c)
    ensures 0 <= Square(r, c) < 64 && Row(Square(r, c)) == r && Col(Square(r, c)) == c
  {
  }

  lemma RowColOfSquare(t: int)
    requires 0 <= t < 64
    ensures OnBoard(Row(t), Col(t)) && Square(Row(t), Col(t)) == t
  {
  }

  // ---------------------------------------------------------------------------
  // Knight and king.

  /** A square reached from i by a fixed offset d, and kept by `add`. */
  predicate JumpTarget(b: Board, p: Piece, i: int, d: (int, int), t: int) {
    0 <= t < 64 && Row(t) == Row(i) + d.0 && Col(t) == Col(i) + d.1 && !SameSide(p, b[t])
  }

  /** `add(r, c)` keeps the square at (r, c) exactly when it is on the board and not held
      by the mover's side. */
  lemma AddKeeps(b: Board, p: Piece, r: int, c: int, t: int)
    ensures t in Add(b, p, r, c) <==> OnBoard(r, c) && t == Square(r, c) && !SameSide(p, b[t])
  {
  }

  /** An index on the board is the square at (r, c) exactly when r and c are its row and
      column. */
  lemma SquareCoords(r: int, c: int, t: int)
    requires 0 <= t < 64
    ensures OnBoard(r, c) && t == Square(r, c) <==> Row(t) == r && Col(t) == c
  {
    if OnBoard(r, c) && t == Square(r, c) {
      SquareOfRowCol(r, c);
    }
    if Row(t) == r && Col(t) == c {
      RowColOfSquare(t);
    }
  }

  /** `add(r, c)` keeps an on-board index exactly when (r, c) are its row and column and
      it is not held by the mover's side. */
  lemma AddAt(b: Board, p: Piece, r: int, c: int, t: int)
    requires 0 <= t < 64
    ensures t in Add(b, p, r, c) <==> Row(t) == r && Col(t) == c && !SameSide(p, b[t])
  {
    AddKeeps(b, p, r, c, t);
    SquareCoords(r, c, t);
  }

  /** `add` at one offset keeps exactly the square that offset reaches. */
  lemma {:induction false} AddIsJumpTarget(b: Board, p: Piece, i: int, d: (int, int), t: int)
    requires 0 <= i < 64
    ensures t in Add(b, p, Row(i) + d.0, Col(i) + d.1) <==> JumpTarget(b, p, i, d, t)
  {
    var r, c := Row(i) + d.0, Col(i) + d.1;
    if 0 <= t < 64 {
      AddAt(b, p, r, c, t);
    } else {
      AddKeeps(b, p, r, c, t);
      if OnBoard(r, c) {
        SquareOfRowCol(r, c);
      }
    }
  }

  lemma {:induction false} JumpsMembership(b: Board, p: Piece, i: int, offs: seq<(int, int)>, t: int)
    requires 0 <= i < 64
    ensures t in Jumps(b, p, Row(i), Col(i), offs) <==> exists d :: d in offs && JumpTarget(b, p, i, d, t)
    decreases |offs|
  {
    if offs != [] {
      var front, d := offs[..|offs| - 1], offs[|offs| - 1];
      assert offs == front + [d];
      var add := Add(b, p, Row(i) + d.0, Col(i) + d.1);
      assert Jumps(b, p, Row(i), Col(i), offs) == Jumps(b, p, Row(i), Col(i), front) + add;
      JumpsMembership(b, p, i, front, t);
      AddIsJumpTarget(b, p, i, d, t);
      if t in Jumps(b, p, Row(i), Col(i), offs) {
        if t in add {
          assert d in offs && JumpTarget(b, p, i, d, t);
        } else {
          var e :| e in front && JumpTarget(b, p, i, e, t);
          assert e in offs;
        }
      }
      if exists e :: e in offs && JumpTarget(b, p, i, e, t) {
        var e :| e in offs && JumpTarget(b, p, i, e, t);
        if e != d {
          assert e in front;
        }
      }
    }
  }

  predicate KnightHop(i: int, t: int) {
    var dr, dc := Abs(Row(t) - Row(i)), Abs(Col(t) - Col(i));
    (dr == 2 && dc == 1) || (dr == 1 && dc == 2)
  }

  predicate KingStep(i: int, t: int) {
    var dr, dc := Abs(Row(t) - Row(i)), Abs(Col(t) - Col(i));
    dr <= 1 && dc <= 1 && (dr, dc) != (0, 0)
  }

  lemma KnightOffsets(d: (int, int))
    ensures d in KnightJumps <==> (Abs(d.0) == 2 && Abs(d.1) == 1) || (Abs(d.0) == 1 && Abs(d.1) == 2)
  {
  }

  lemma KingOffsets(d: (int, int))
    ensures d in KingSteps <==> Abs(d.0) <= 1 && Abs(d.1) <= 1 && d != (0, 0)
  {
  }

  /** A knight reaches exactly the on-board squares a knight's hop away that do not hold
      a piece of its own side. */
  lemma KnightMoves(b: Board, i: int, p: Piece, t: int)
    requires 0 <= i < 64 && p.Pc? && p.kind == Knight
    ensures t in Moves(b, i, p) <==> 0 <= t < 64 && KnightHop(i, t) && !SameSide(p, b[t])
  {
    assert Moves(b, i, p) == Jumps(b, p, Row(i), Col(i), KnightJumps);
    JumpsMembership(b, p, i, KnightJumps, t);
    var hop := (Row(t) - Row(i), Col(t) - Col(i));
    KnightOffsets(hop);
    if t in Moves(b, i, p) {
      var d :| d in KnightJumps && JumpTarget(b, p, i, d, t);
      assert d == hop;
    }
    if 0 <= t < 64 && KnightHop(i, t) && !SameSide(p, b[t]) {
      assert JumpTarget(b, p, i, hop, t);
    }
  }

  /** A king reaches exactly the on-board neighbouring squares that do not hold a piece
      of its own side. */
  lemma KingMoves(b: Board, i: int, p: Piece, t: int)
    requires 0 <= i < 64 && p.Pc? && p.kind == King
    ensures t in Moves(b, i, p) <==> 0 <= t < 64 && KingStep(i, t) && !SameSide(p, b[t])
  {
    assert Moves(b, i, p) == Jumps(b, p, Row(i), Col(i), KingSteps);
    JumpsMembership(b, p, i, KingSteps, t);
    var step := (Row(t) - Row(i), Col(t) - Col(i));
    KingOffsets(step);
    if t in Moves(b, i, p) {
      var d :| d in KingSteps && JumpTarget(b, p, i, d, t);
      assert d == step;
    }
    if 0 <= t < 64 && KingStep(i, t) && !SameSide(p, b[t]) {
      assert JumpTarget(b, p, i, step, t);
    }
  }

  // ---------------------------------------------------------------------------
  // Rays.

  /** The squares of a ray start at (r, c), advance one row by d.0 and one column by
      d.1 at a time, and end at the last square before the edge. */
  lemma RaySquaresGeometry(r: int, c: int, d: (int, int))
    requires IsDir(d) && OnBoard(r, c)
    ensures var s := RaySquares(r, c, d);
      |s| >= 1 && s[0] == Square(r, c) &&
      Steps(s, d) && !OnBoard(Row(s[|s| - 1]) + d.0, Col(s[|s| - 1]) + d.1)
  {
    RaySteps(r, c, d);
    RayEnd(r, c, d);
  }

  /** Each square of s is one step d from the one before it. */
  predicate Steps(s: seq<int>, d: (int, int)) {
    forall k :: 0 < k < |s| ==> Row(s[k]) == Row(s[k - 1]) + d.0 && Col(s[k]) == Col(s[k - 1]) + d.1
  }

  /** Putting x in front of a stepping sequence whose first square is one step d from x
      keeps it stepping. */
  lemma StepsCons(x: int, rest: seq<int>, d: (int, int))
    requires Steps(rest, d)
    requires |rest| > 0 ==> Row(rest[0]) == Row(x) + d.0 && Col(rest[0]) == Col(x) + d.1
    ensures Steps([x] + rest, d)
  {
    var s := [x] + rest;
    forall k | 0 < k < |s|
      ensures Row(s[k]) == Row(s[k - 1]) + d.0 && Col(s[k]) == Col(s[k - 1]) + d.1
    {
      if k > 1 {
        assert s[k] == rest[k - 1] && s[k - 1] == rest[k - 2];
      }
    }
  }

  lemma {:induction false} RaySteps(r: int, c: int, d: (int, int))
    requires IsDir(d)
    ensures Steps(RaySquares(r, c, d), d)
    decreases RayMeasure(r, c, d)
  {
    if OnBoard(r, c) {
      var rest := RaySquares(r + d.0, c + d.1, d);
      assert RaySquares(r, c, d) == [Square(r, c)] + rest;
      RaySteps(r + d.0, c + d.1, d);
      SquareOfRowCol(r, c);
      if OnBoard(r + d.0, c + d.1) {
        SquareOfRowCol(r + d.0, c + d.1);
        assert rest[0] == Square(r + d.0, c + d.1);
      }
      StepsCons(Square(r, c), rest, d);
    }
  }

  lemma {:induction false} RayEnd(r: int, c: int, d: (int, int))
    requires IsDir(d) && OnBoard(r, c)
    ensures var s := RaySquares(r, c, d);
      |s| >= 1 && s[0] == Square(r, c) && !OnBoard(Row(s[|s| - 1]) + d.0, Col(s[|s| - 1]) + d.1)
    decreases RayMeasure(r, c, d)
  {
    var s := RaySquares(r, c, d);
    var rest := RaySquares(r + d.0, c + d.1, d);
    assert s == [Square(r, c)] + rest;
    if OnBoard(r + d.0, c + d.1) {
      RayEnd(r + d.0, c + d.1, d);
      assert s[|s| - 1] == rest[|rest| - 1];
    } else {
      SquareOfRowCol(r, c);
    }
  }

  /** Every square of s is an empty square of the board. */
  predicate AllEmpty(b: Board, s: seq<int>) {
    forall k :: 0 <= k < |s| ==> 0 <= s[k] < 64 && b[s[k]] == Empty
  }

  /** t is on the ray from (r, c) in direction d, every square of the ray before it is
      empty, and t itself is empty or holds a piece opposing p. */
  ghost predicate Reaches(b: Board, p: Piece, r: int, c: int, d: (int, int), t: int)
    requires IsDir(d)
  {
    var s := RaySquares(r, c, d);
    exists j :: 0 <= j < |s| && s[j] == t && AllEmpty(b, s[..j]) && (b[t] == Empty || Opposes(p, b[t]))
  }

  /** The ray from an occupied square reaches that square alone, and only if it opposes p. */
  lemma ReachesBlocked(b: Board, p: Piece, r: int, c: int, d: (int, int), t: int)
    requires IsDir(d) && OnBoard(r, c) && b[Square(r, c)] != Empty
    ensures Reaches(b, p, r, c, d, t) <==> t == Square(r, c) && Opposes(p, b[t])
  {
    var s := RaySquares(r, c, d);
    assert s[0] == Square(r, c);
    if Reaches(b, p, r, c, d, t) {
      var j :| 0 <= j < |s| && s[j] == t && AllEmpty(b, s[..j]) && (b[t] == Empty || Opposes(p, b[t]));
    }
    if t == Square(r, c) && Opposes(p, b[t]) {
      assert AllEmpty(b, s[..0]);
    }
  }

  /** The ray from an empty square reaches that square and whatever the ray one step
      further on reaches. */
  lemma ReachesThrough(b: Board, p: Piece, r: int, c: int, d: (int, int), t: int)
    requires IsDir(d) && OnBoard(r, c) && b[Square(r, c)] == Empty
    ensures Reaches(b, p, r, c, d, t) <==> t == Square(r, c) || Reaches(b, p, r + d.0, c + d.1, d, t)
  {
    if Reaches(b, p, r, c, d, t) && t != Square(r, c) {
      ReachesShift(b, p, r, c, d, t);
    }
    if Reaches(b, p, r + d.0, c + d.1, d, t) {
      ReachesExtend(b, p, r, c, d, t);
    }
    if t == Square(r, c) {
      var s := RaySquares(r, c, d);
      assert s[0] == t && AllEmpty(b, s[..0]);
    }
  }

  lemma ReachesShift(b: Board, p: Piece, r: int, c: int, d: (int, int), t: int)
    requires IsDir(d) && OnBoard(r, c)
    requires Reaches(b, p, r, c, d, t) && t != Square(r, c)
    ensures Reaches(b, p, r + d.0, c + d.1, d, t)
  {
    var s := RaySquares(r, c, d);
    var rest := RaySquares(r + d.0, c + d.1, d);
    assert s == [Square(r, c)] + rest;
    var j :| 0 <= j < |s| && s[j] == t && AllEmpty(b, s[..j]) && (b[t] == Empty || Opposes(p, b[t]));
    assert j > 0 && rest[j - 1] == t;
    var pre := rest[..j - 1];
    forall k | 0 <= k < |pre|
      ensures 0 <= pre[k] < 64 && b[pre[k]] == Empty
    {
      assert pre[k] == s[..j][k + 1];
    }
    assert 0 <= j - 1 < |rest| && rest[j - 1] == t && AllEmpty(b, pre);
  }

  lemma ReachesExtend(b: Board, p: Piece, r: int, c: int, d: (int, int), t: int)
    requires IsDir(d) && OnBoard(r, c) && b[Square(r, c)] == Empty
    requires Reaches(b, p, r + d.0, c + d.1, d, t)
    ensures Reaches(b, p, r, c, d, t)
  {
    var s := RaySquares(r, c, d);
    var rest := RaySquares(r + d.0, c + d.1, d);
    assert s == [Square(r, c)] + rest;
    var j :| 0 <= j < |rest| && rest[j] == t && AllEmpty(b, rest[..j]) && (b[t] == Empty || Opposes(p, b[t]));
    assert s[j + 1] == t;
    var pre := s[..j + 1];
    forall k | 0 <= k < |pre|
      ensures 0 <= pre[k] < 64 && b[pre[k]] == Empty
    {
      if k > 0 {
        assert pre[k] == rest[..j][k - 1];
      }
    }
    assert 0 <= j + 1 < |s| && s[j + 1] == t && AllEmpty(b, pre);
  }

  /** The walk of one ray yields exactly the squares the ray reaches. */
  lemma {:induction false} RayMembership(b: Board, p: Piece, r: int, c: int, d: (int, int), t: int)
    requires IsDir(d)
    ensures t in Ray(b, p, r, c, d) <==> Reaches(b, p, r, c, d, t)
    decreases RayMeasure(r, c, d)
  {
    if !OnBoard(r, c) {
      assert Ray(b, p, r, c, d) == [] && RaySquares(r, c, d) == [];
    } else if b[Square(r, c)] != Empty {
      BlockedRayMembership(b, p, r, c, d, t);
    } else {
      RayMembership(b, p, r + d.0, c + d.1, d, t);
      OpenRayMembership(b, p, r, c, d, t);
    }
  }

  /** A walk that meets a piece at once yields what the ray reaches there. */
  lemma BlockedRayMembership(b: Board, p: Piece, r: int, c: int, d: (int, int), t: int)
    requires IsDir(d) && OnBoard(r, c) && b[Square(r, c)] != Empty
    ensures t in Ray(b, p, r, c, d) <==> Reaches(b, p, r, c, d, t)
  {
    assert Ray(b, p, r, c, d) == if Opposes(p, b[Square(r, c)]) then [Square(r, c)] else [];
    assert t in Ray(b, p, r, c, d) <==> t == Square(r, c) && Opposes(p, b[Square(r, c)]);
    ReachesBlocked(b, p, r, c, d, t);
  }

  /** A walk through an empty square yields what the ray reaches, given that the walk
      from the next square does. */
  lemma OpenRayMembership(b: Board, p: Piece, r: int, c: int, d: (int, int), t: int)
    requires IsDir(d) && OnBoard(r, c) && b[Square(r, c)] == Empty
    requires t in Ray(b, p, r + d.0, c + d.1, d) <==> Reaches(b, p, r + d.0, c + d.1, d, t)
    ensures t in Ray(b, p, r, c, d) <==> Reaches(b, p, r, c, d, t)
  {
    assert Ray(b, p, r, c, d) == [Square(r, c)] + Ray(b, p, r + d.0, c + d.1, d);
    assert t in Ray(b, p, r, c, d) <==> t == Square(r, c) || t in Ray(b, p, r + d.0, c + d.1, d);
    ReachesThrough(b, p, r, c, d, t);
  }

  /** `slide` over a list of directions yields exactly the union of its rays. */
  lemma {:induction false} SlideMembership(b: Board, p: Piece, row: int, col: int, dirs: seq<(int, int)>, t: int)
    requires forall d :: d in dirs ==> IsDir(d)
    ensures t in Slide(b, p, row, col, dirs) <==>
      exists d :: d in dirs && t in Ray(b, p, row + d.0, col + d.1, d)
    decreases |dirs|
  {
    if dirs != [] {
      var front, d := dirs[..|dirs| - 1], dirs[|dirs| - 1];
      assert dirs == front + [d];
      var ray := Ray(b, p, row + d.0, col + d.1, d);
      assert Slide(b, p, row, col, dirs) == Slide(b, p, row, col, front) + ray;
      SlideMembership(b, p, row, col, front, t);
      if t in Slide(b, p, row, col, dirs) {
        if t in ray {
          assert d in dirs;
        } else {
          var e :| e in front && t in Ray(b, p, row + e.0, col + e.1, e);
          assert e in dirs;
        }
      }
      if exists e :: e in dirs && t in Ray(b, p, row + e.0, col + e.1, e) {
        var e :| e in dirs && t in Ray(b, p, row + e.0, col + e.1, e);
        if e != d {
          assert e in front;
        }
      }
    }
  }

  /** The rays a sliding piece walks. */
  function SliderDirs(k: Kind): (dirs: seq<(int, int)>)
    ensures forall d :: d in dirs ==> IsDir(d)
  {
    match k
    case Rook => RookDirs
    case Bishop => BishopDirs
    case _ => RookDirs + BishopDirs
  }

  /** The walk of each ray in dirs yields exactly what the ray reaches. */
  lemma RaysReach(b: Board, p: Piece, row: int, col: int, dirs: seq<(int, int)>, t: int)
    requires forall d :: d in dirs ==> IsDir(d)
    ensures forall d :: d in dirs ==>
      (t in Ray(b, p, row + d.0, col + d.1, d) <==> Reaches(b, p, row + d.0, col + d.1, d, t))
  {
    forall d | d in dirs
      ensures t in Ray(b, p, row + d.0, col + d.1, d) <==> Reaches(b, p, row + d.0, col + d.1, d, t)
    {
      RayMembership(b, p, row + d.0, col + d.1, d, t);
    }
  }

  /** The squares reached along some ray in dirs. */
  ghost predicate SlideReaches(b: Board, p: Piece, i: int, dirs: seq<(int, int)>, t: int)
    requires forall d :: d in dirs ==> IsDir(d)
  {
    exists d :: d in dirs && Reaches(b, p, Row(i) + d.0, Col(i) + d.1, d, t)
  }

  lemma SlideReachMembership(b: Board, p: Piece, i: int, dirs: seq<(int, int)>, t: int)
    requires forall d :: d in dirs ==> IsDir(d)
    ensures t in Slide(b, p, Row(i), Col(i), dirs) <==> SlideReaches(b, p, i, dirs, t)
  {
    RaysReach(b, p, Row(i), Col(i), dirs, t);
    SlideMembership(b, p, Row(i), Col(i), dirs, t);
  }

  /** A rook, bishop or queen reaches exactly the squares that one of its rays reaches:
      on the ray, with every square strictly between empty, and empty or opposing. */
  lemma SliderMoves(b: Board, i: int, p: Piece, t: int)
    requires 0 <= i < 64 && p.Pc? && p.kind in {Rook, Bishop, Queen}
    ensures t in Moves(b, i, p) <==> SlideReaches(b, p, i, SliderDirs(p.kind), t)
  {
    var row, col := Row(i), Col(i);
    if p.kind == Rook {
      assert Moves(b, i, p) == Slide(b, p, row, col, RookDirs);
      SlideReachMembership(b, p, i, RookDirs, t);
    } else if p.kind == Bishop {
      assert Moves(b, i, p) == Slide(b, p, row, col, BishopDirs);
      SlideReachMembership(b, p, i, BishopDirs, t);
    } else {
      assert Moves(b, i, p) == Slide(b, p, row, col, RookDirs) + Slide(b, p, row, col, BishopDirs);
      QueenReaches(b, p, i, t);
    }
  }

  /** The queen's two slides together reach what her eight rays reach. */
  lemma QueenReaches(b: Board, p: Piece, i: int, t: int)
    requires 0 <= i < 64
    ensures t in Slide(b, p, Row(i), Col(i), RookDirs) + Slide(b, p, Row(i), Col(i), BishopDirs) <==>
      SlideReaches(b, p, i, RookDirs + BishopDirs, t)
  {
    SlideReachMembership(b, p, i, RookDirs, t);
    SlideReachMembership(b, p, i, BishopDirs, t);
    QueenRookHalf(b, p, i, t);
    QueenBishopHalf(b, p, i, t);
  }

  /** What the eight rays reach is reached by the four orthogonal ones or, failing that,
      by the four diagonal ones; the orthogonal ones are among the eight. */
  lemma QueenRookHalf(b: Board, p: Piece, i: int, t: int)
    ensures SlideReaches(b, p, i, RookDirs + BishopDirs, t) ==>
      SlideReaches(b, p, i, RookDirs, t) || SlideReaches(b, p, i, BishopDirs, t)
    ensures SlideReaches(b, p, i, RookDirs, t) ==> SlideReaches(b, p, i, RookDirs + BishopDirs, t)
  {
    if SlideReaches(b, p, i, RookDirs + BishopDirs, t) {
      var d :| d in RookDirs + BishopDirs && Reaches(b, p, Row(i) + d.0, Col(i) + d.1, d, t);
      assert d in RookDirs || d in BishopDirs;
    }
    if SlideReaches(b, p, i, RookDirs, t) {
      var d :| d in RookDirs && Reaches(b, p, Row(i) + d.0, Col(i) + d.1, d, t);
      assert d in RookDirs + BishopDirs;
    }
  }

  /** The diagonal rays are among the eight too. */
  lemma QueenBishopHalf(b: Board, p: Piece, i: int, t: int)
    ensures SlideReaches(b, p, i, BishopDirs, t) ==> SlideReaches(b, p, i, RookDirs + BishopDirs, t)
  {
    if SlideReaches(b, p, i, BishopDirs, t) {
      var d :| d in BishopDirs && Reaches(b, p, Row(i) + d.0, Col(i) + d.1, d, t);
      assert d in RookDirs + BishopDirs;
    }
  }

  // ---------------------------------------------------------------------------
  // Properties shared by every piece.

  /** A generated destination that holds a piece holds an opposing one: no piece ever
      captures its own side, and a pawn push never lands on an occupied square. */
  lemma CapturesOnlyOpponents(b: Board, i: int, p: Piece, t: int)
    requires 0 <= i < 64 && t in Moves(b, i, p) && 0 <= t < 64 && b[t] != Empty
    ensures Opposes(p, b[t])
  {
    if p.kind == Knight {
      KnightMoves(b, i, p, t);
    } else if p.kind == King {
      KingMoves(b, i, p, t);
    } else if p.kind == Pawn {
      if p.white {
        WhitePawnTargets(b, i, t);
      } else {
        BlackPawnTargets(b, i, t);
      }
    } else {
      SliderMoves(b, i, p, t);
      SliderCapturesOpponent(b, p, i, SliderDirs(p.kind), t);
    }
  }

  lemma SliderCapturesOpponent(b: Board, p: Piece, i: int, dirs: seq<(int, int)>, t: int)
    requires (forall d :: d in dirs ==> IsDir(d)) && SlideReaches(b, p, i, dirs, t)
    requires 0 <= t < 64 && b[t] != Empty
    ensures Opposes(p, b[t])
  {
    var d :| d in dirs && Reaches(b, p, Row(i) + d.0, Col(i) + d.1, d, t);
  }

  /** Only pawns can produce an off-board index. */
  lemma PiecesStayOnBoard(b: Board, i: int, p: Piece, t: int)
    requires 0 <= i < 64 && p.Pc? && p.kind != Pawn && t in Moves(b, i, p)
    ensures 0 <= t < 64 && t != i
  {
    if p.kind == Knight {
      KnightMoves(b, i, p, t);
    } else if p.kind == King {
      KingMoves(b, i, p, t);
    } else {
      SliderMoves(b, i, p, t);
      SliderLeavesOrigin(b, p, i, SliderDirs(p.kind), t);
    }
  }

  lemma SliderLeavesOrigin(b: Board, p: Piece, i: int, dirs: seq<(int, int)>, t: int)
    requires 0 <= i < 64 && (forall d :: d in dirs ==> IsDir(d)) && SlideReaches(b, p, i, dirs, t)
    ensures 0 <= t < 64 && t != i
  {
    var d :| d in dirs && Reaches(b, p, Row(i) + d.0, Col(i) + d.1, d, t);
    ReachedOnRay(b, p, i, d, t);
  }

  lemma ReachedOnRay(b: Board, p: Piece, i: int, d: (int, int), t: int)
    requires 0 <= i < 64 && IsDir(d) && Reaches(b, p, Row(i) + d.0, Col(i) + d.1, d, t)
    ensures 0 <= t < 64 && t != i
  {
    var s := RaySquares(Row(i) + d.0, Col(i) + d.1, d);
    var j :| 0 <= j < |s| && s[j] == t && AllEmpty(b, s[..j]) && (b[t] == Empty || Opposes(p, b[t]));
    RayAvoidsOrigin(i, d, j);
  }

  /** No square of a ray that starts one step away from i is i itself. */
  lemma RayAvoidsOrigin(i: int, d: (int, int), j: int)
    requires 0 <= i < 64 && IsDir(d) && 0 <= j < |RaySquares(Row(i) + d.0, Col(i) + d.1, d)|
    ensures RaySquares(Row(i) + d.0, Col(i) + d.1, d)[j] != i
  {
    var t := RaySquares(Row(i) + d.0, Col(i) + d.1, d)[j];
    RayProgress(Row(i) + d.0, Col(i) + d.1, d, j);
    assert Row(t) != Row(i) || Col(t) != Col(i);
  }

  /** t lies at or beyond (r, c) in the direction d, row by row and column by column. */
  predicate Ahead(r: int, c: int, d: (int, int), t: int) {
    (d.0 > 0 ==> Row(t) >= r) && (d.0 < 0 ==> Row(t) <= r) && (d.0 == 0 ==> Row(t) == r) &&
    (d.1 > 0 ==> Col(t) >= c) && (d.1 < 0 ==> Col(t) <= c) && (d.1 == 0 ==> Col(t) == c)
  }

  /** What lies ahead of the next square lies ahead of this one. */
  lemma AheadOfNext(r: int, c: int, d: (int, int), t: int)
    requires IsDir(d) && Ahead(r + d.0, c + d.1, d, t)
    ensures Ahead(r, c, d, t)
  {
  }

  /** Every square of a ray lies at or beyond its start: rows and columns move
      monotonically in the direction of d. */
  lemma {:induction false} RayProgress(r: int, c: int, d: (int, int), j: int)
    requires IsDir(d) && 0 <= j < |RaySquares(r, c, d)|
    ensures Ahead(r, c, d, RaySquares(r, c, d)[j])
    decreases j
  {
    var s := RaySquares(r, c, d);
    assert OnBoard(r, c);
    assert s == [Square(r, c)] + RaySquares(r + d.0, c + d.1, d);
    if j > 0 {
      RayProgress(r + d.0, c + d.1, d, j - 1);
      assert s[j] == RaySquares(r + d.0, c + d.1, d)[j - 1];
      AheadOfNext(r, c, d, s[j]);
    } else {
      SquareOfRowCol(r, c);
    }
  }

  // ---------------------------------------------------------------------------
  // Pawns.

  /** A white pawn is offered: the square ahead if empty; two ahead from row 6 if both
      are empty; the two forward diagonals by raw offset (-7, -9) if they hold a black
      piece. Off-board squares read as empty, so pushes are not bounded by the edge. */
  lemma WhitePawnTargets(b: Board, i: int, t: int)
    requires 0 <= i < 64
    ensures t in Moves(b, i, Pc(Pawn, true)) <==>
      (t == i - 8 && At(b, t) == Empty) ||
      (t == i - 16 && Row(i) == 6 && At(b, i - 8) == Empty && At(b, t) == Empty) ||
      ((t == i - 7 || t == i - 9) && IsBlack(At(b, t)))
  {
    assert Moves(b, i, Pc(Pawn, true)) == WhitePawnMoves(b, i);
  }

  /** The mirror image for black: +8, +16 from row 1, and +7, +9 onto white pieces. */
  lemma BlackPawnTargets(b: Board, i: int, t: int)
    requires 0 <= i < 64
    ensures t in Moves(b, i, Pc(Pawn, false)) <==>
      (t == i + 8 && At(b, t) == Empty) ||
      (t == i + 16 && Row(i) == 1 && At(b, i + 8) == Empty && At(b, t) == Empty) ||
      ((t == i + 7 || t == i + 9) && IsWhite(At(b, t)))
  {
    assert Moves(b, i, Pc(Pawn, false)) == BlackPawnMoves(b, i);
  }

  /** The diagonal offsets are not checked against the column: a white pawn on the last
      column "captures" a black piece on the first column of its own row. */
  lemma PawnWrapAround()
    ensures var b := EmptyBoard()[48 := Pc(Knight, false)];
      48 in Moves(b, 55, Pc(Pawn, true)) && Row(48) == Row(55) && Col(48) == 0 && Col(55) == 7
  {
    var b := EmptyBoard()[48 := Pc(Knight, false)];
    WhitePawnTargets(b, 55, 48);
  }

  /** From the first column the other diagonal wraps two rows: a white pawn on 48 (row 6,
      column 0) is offered 39, a black piece on the last column of row 4. */
  lemma PawnWrapTwoRows()
    ensures var b := EmptyBoard()[39 := Pc(Knight, false)];
      39 in Moves(b, 48, Pc(Pawn, true)) && Row(39) == Row(48) - 2 && Col(39) == 7 && Col(48) == 0
  {
    var b := EmptyBoard()[39 := Pc(Knight, false)];
    WhitePawnTargets(b, 48, 39);
  }

  /** A white pawn on the first column is never offered a square of its own row. */
  lemma WhitePawnLeavesRow(b: Board, i: int, t: int)
    requires 0 <= i < 64 && Col(i) == 0 && 0 <= t < 64 && t in Moves(b, i, Pc(Pawn, true))
    ensures Row(t) != Row(i)
  {
    WhitePawnTargets(b, i, t);
  }

  /** The pushes are not bounded by the board edge: a white pawn on row 0 is offered the
      index 8 below its own, a black pawn on row 7 the index 8 above. */
  lemma PawnPushesLeaveBoard()
    ensures Moves(EmptyBoard(), 3, Pc(Pawn, true)) == [-5]
    ensures Moves(EmptyBoard(), 60, Pc(Pawn, false)) == [68]
  {
  }

  /** On the starting layout each white pawn is offered exactly its one- and two-square
      pushes, and each black pawn likewise. */
  lemma InitialPawnMoves(j: int)
    requires 0 <= j < 8
    ensures InitialBoard()[48 + j] == Pc(Pawn, true)
    ensures Moves(InitialBoard(), 48 + j, Pc(Pawn, true)) == [40 + j, 32 + j]
    ensures InitialBoard()[8 + j] == Pc(Pawn, false)
    ensures Moves(InitialBoard(), 8 + j, Pc(Pawn, false)) == [16 + j, 24 + j]
  {
    InitialLayout();
  }

  // ---------------------------------------------------------------------------
  // Worked cases on an empty board.

  /** On an empty board every ray runs to the edge. */
  lemma {:induction false} RayOnEmptyBoard(p: Piece, r: int, c: int, d: (int, int))
    requires IsDir(d)
    ensures Ray(EmptyBoard(), p, r, c, d) == RaySquares(r, c, d)
    decreases RayMeasure(r, c, d)
  {
    if OnBoard(r, c) {
      SquareOfRowCol(r, c);
      RayOnEmptyBoard(p, r + d.0, c + d.1, d);
    }
  }

  /** The number of squares of a vertical ray. */
  lemma {:induction false} VerticalRayLength(r: int, c: int, d: (int, int))
    requires IsDir(d) && d.1 == 0 && 0 <= c < 8
    requires if d.0 > 0 then 0 <= r <= 8 else -1 <= r <= 7
    ensures |RaySquares(r, c, d)| == if d.0 > 0 then 8 - r else r + 1
    decreases RayMeasure(r, c, d)
  {
    if OnBoard(r, c) {
      VerticalRayLength(r + d.0, c, d);
    }
  }

  /** The number of squares of a horizontal ray. */
  lemma {:induction false} HorizontalRayLength(r: int, c: int, d: (int, int))
    requires IsDir(d) && d.0 == 0 && 0 <= r < 8
    requires if d.1 > 0 then 0 <= c <= 8 else -1 <= c <= 7
    ensures |RaySquares(r, c, d)| == if d.1 > 0 then 8 - c else c + 1
    decreases RayMeasure(r, c, d)
  {
    if OnBoard(r, c) {
      HorizontalRayLength(r, c + d.1, d);
    }
  }

  /** `slide` over the rook's four directions is its four rays in order. */
  lemma RookSlide(b: Board, p: Piece, row: int, col: int)
    ensures Slide(b, p, row, col, RookDirs) ==
      Ray(b, p, row + 1, col, (1, 0)) + Ray(b, p, row - 1, col, (-1, 0)) +
      Ray(b, p, row, col + 1, (0, 1)) + Ray(b, p, row, col - 1, (0, -1))
  {
    var d1: seq<(int, int)> := [(1, 0)];
    var d2 := d1 + [(-1, 0)];
    var d3 := d2 + [(0, 1)];
    assert d1[..0] == [] && d2[..1] == d1 && d3[..2] == d2 && RookDirs[..3] == d3;
    assert Slide(b, p, row, col, d1) == Ray(b, p, row + 1, col, (1, 0));
    assert Slide(b, p, row, col, d2) == Slide(b, p, row, col, d1) + Ray(b, p, row - 1, col, (-1, 0));
    assert Slide(b, p, row, col, d3) == Slide(b, p, row, col, d2) + Ray(b, p, row, col + 1, (0, 1));
  }

  /** A rook alone on the board has 14 destinations from every square: 7 along its row
      and 7 along its column. */
  lemma RookOnEmptyBoard(i: int, white: bool)
    requires 0 <= i < 64
    ensures |Moves(EmptyBoard(), i, Pc(Rook, white))| == 14
  {
    var b, p, row, col := EmptyBoard(), Pc(Rook, white), Row(i), Col(i);
    assert Moves(b, i, p) == Slide(b, p, row, col, RookDirs);
    RookSlide(b, p, row, col);
    RayOnEmptyBoard(p, row + 1, col, (1, 0));
    RayOnEmptyBoard(p, row - 1, col, (-1, 0));
    RayOnEmptyBoard(p, row, col + 1, (0, 1));
    RayOnEmptyBoard(p, row, col - 1, (0, -1));
    VerticalRayLength(row + 1, col, (1, 0));
    VerticalRayLength(row - 1, col, (-1, 0));
    HorizontalRayLength(row, col + 1, (0, 1));
    HorizontalRayLength(row, col - 1, (0, -1));
  }

  /** A knight on row 0, column 1 of an empty board: of its eight hops only three stay on
      the board, produced in the order the offsets are listed. */
  lemma KnightNearEdge()
    ensures Moves(EmptyBoard(), 1, Pc(Knight, false)) == [18, 16, 11]
  {
    var b, p := EmptyBoard(), Pc(Knight, false);
    var offs := KnightJumps;
    assert offs[..0] == [] && offs[..8] == offs;
    assert Add(b, p, 2, 2) == [18] && Add(b, p, 2, 0) == [16] && Add(b, p, 1, 3) == [11];
    JumpsStep(b, p, 0, 1, offs, 0);
    JumpsStep(b, p, 0, 1, offs, 1);
    JumpsStep(b, p, 0, 1, offs, 2);
    JumpsStep(b, p, 0, 1, offs, 3);
    assert Jumps(b, p, 0, 1, offs[..4]) == [18, 16];
    JumpsStep(b, p, 0, 1, offs, 4);
    JumpsStep(b, p, 0, 1, offs, 5);
    JumpsStep(b, p, 0, 1, offs, 6);
    JumpsStep(b, p, 0, 1, offs, 7);
  }
}
