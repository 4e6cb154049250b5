// The game state of main.js (`board`, `whiteToMove`, `selectedIndex`) and the operations
// that read and update it in place, each proved against the functions of MoveGen and Rules.

module Game {
  import opened Pieces
  import opened MoveGen
  import opened Rules

  class ChessGame {
    var board: array<Piece>
    var whiteToMove: bool
    var selectedIndex: Option<int>

    ghost predicate Valid()
      reads this
    {
      board.Length == 64 && (selectedIndex.Some? ==> 0 <= selectedIndex.value < 64)
    }

    /** A selected square, when there is one, holds a piece of the side to move. */
    ghost predicate SelectionOwned()
      reads this, board
      requires Valid()
    {
      selectedIndex.Some? ==> Owns(whiteToMove, board[selectedIndex.value])
    }

    /** The start of a game (`resetGame` run at load time). */
    constructor ()
      ensures Valid() && SelectionOwned() && fresh(board)
      ensures board[..] == InitialBoard() && whiteToMove && selectedIndex == None
    {
      board := new Piece[64](i => if 0 <= i < 64 then InitialBoard()[i] else Empty);
      whiteToMove := true;
      selectedIndex := None;
      new;
      assert board[..] == InitialBoard();
    }

    /** `resetGame`: a fresh starting board, white to move, nothing selected. */
    method Reset()
      modifies this
      ensures Valid() && SelectionOwned() && fresh(board)
      ensures board[..] == InitialBoard() && whiteToMove && selectedIndex == None
    {
      board := new Piece[64](i => if 0 <= i < 64 then InitialBoard()[i] else Empty);
      whiteToMove := true;
      selectedIndex := None;
      assert board[..] == InitialBoard();
    }

    // -------------------------------------------------------------------------
    // Move generation.

    /** The `add(r, c)` closure: appends the square if it is on the board and not held by
        the mover's side. */
    method PushTarget(piece: Piece, r: int, c: int, moves0: seq<int>) returns (moves: seq<int>)
      requires Valid()
      ensures moves == moves0 + MoveGen.Add(board[..], piece, r, c)
    {
      moves := moves0;
      if r < 0 || r > 7 || c < 0 || c > 7 {
        return;
      }
      var target := r * 8 + c;
      if IsWhite(piece) && IsWhite(board[target]) {
        return;
      }
      if IsBlack(piece) && IsBlack(board[target]) {
        return;
      }
      moves := moves + [target];
    }

    /** `forEach(m => add(...))` over a list of offsets from (row, col). */
    method PushJumps(piece: Piece, row: int, col: int, offs: seq<(int, int)>, moves0: seq<int>)
      returns (moves: seq<int>)
      requires Valid()
      ensures moves == moves0 + Jumps(board[..], piece, row, col, offs)
    {
      ghost var b := board[..];
      moves := moves0;
      for k := 0 to |offs|
        invariant moves == moves0 + Jumps(b, piece, row, col, offs[..k])
      {
        moves := PushTarget(piece, row + offs[k].0, col + offs[k].1, moves);
        JumpsStep(b, piece, row, col, offs, k);
      }
      assert offs[..|offs|] == offs;
    }

    /** `slide(directions)`: walks each direction's ray in turn. */
    method PushSlide(piece: Piece, row: int, col: int, dirs: seq<(int, int)>, moves0: seq<int>)
      returns (moves: seq<int>)
      requires Valid() && forall d :: d in dirs ==> IsDir(d)
      ensures moves == moves0 + Slide(board[..], piece, row, col, dirs)
    {
      ghost var b := board[..];
      moves := moves0;
      for k := 0 to |dirs|
        invariant moves == moves0 + Slide(b, piece, row, col, dirs[..k])
      {
        ghost var before := moves;
        moves := PushRay(piece, row + dirs[k].0, col + dirs[k].1, dirs[k], moves);
        SlideAppend(b, piece, row, col, dirs, k, moves0, before, moves);
      }
      assert dirs[..|dirs|] == dirs;
    }

    /** The loop `slide` runs for one direction from (r, c): takes empty squares, takes
        the first occupied square only if it holds an opposing piece, and stops there or
        at the edge. */
    method PushRay(piece: Piece, r0: int, c0: int, dir: (int, int), moves0: seq<int>)
      returns (moves: seq<int>)
      requires Valid() && IsDir(dir)
      ensures moves == moves0 + Ray(board[..], piece, r0, c0, dir)
    {
      ghost var b := board[..];
      moves := moves0;
      var r, c := r0, c0;
      while r >= 0 && r < 8 && c >= 0 && c < 8
        invariant moves0 + Ray(b, piece, r0, c0, dir) == moves + Ray(b, piece, r, c, dir)
        decreases RayMeasure(r, c, dir)
      {
        var target := r * 8 + c;
        assert target == Square(r, c) && board[target] == b[target];
        if board[target] != Empty {
          assert Ray(b, piece, r, c, dir) == if Opposes(piece, b[target]) then [target] else [];
          if IsWhite(piece) && IsBlack(board[target]) {
            moves := moves + [target];
          }
          if IsBlack(piece) && IsWhite(board[target]) {
            moves := moves + [target];
          }
          assert moves == moves0 + Ray(b, piece, r0, c0, dir);
          break;
        }
        assert Ray(b, piece, r, c, dir) == [target] + Ray(b, piece, r + dir.0, c + dir.1, dir);
        moves := moves + [target];
        r := r + dir.0;
        c := c + dir.1;
      }
    }

    /** `getLegalMoves(index, piece)`: the pseudo-legal destinations of the piece. */
    method GetLegalMoves(index: int, piece: Piece) returns (moves: seq<int>)
      requires Valid() && 0 <= index < 64
      ensures moves == Moves(board[..], index, piece)
    {
      moves := [];
      var row := index / 8;
      var col := index % 8;
      if piece == Pc(Knight, true) || piece == Pc(Knight, false) {
        moves := PushJumps(piece, row, col, KnightJumps, moves);
        assert moves == Jumps(board[..], piece, row, col, KnightJumps);
        return;
      }
      if piece == Pc(Rook, true) || piece == Pc(Rook, false) {
        moves := PushSlide(piece, row, col, RookDirs, moves);
        assert moves == Slide(board[..], piece, row, col, RookDirs);
        return;
      }
      if piece == Pc(Bishop, true) || piece == Pc(Bishop, false) {
        moves := PushSlide(piece, row, col, BishopDirs, moves);
        assert moves == Slide(board[..], piece, row, col, BishopDirs);
        return;
      }
      if piece == Pc(Queen, true) || piece == Pc(Queen, false) {
        moves := PushSlide(piece, row, col, RookDirs, moves);
        assert moves == Slide(board[..], piece, row, col, RookDirs);
        moves := PushSlide(piece, row, col, BishopDirs, moves);
        assert moves == Slide(board[..], piece, row, col, RookDirs) + Slide(board[..], piece, row, col, BishopDirs);
        return;
      }
      if piece == Pc(King, true) || piece == Pc(King, false) {
        moves := PushJumps(piece, row, col, KingSteps, moves);
        assert moves == Jumps(board[..], piece, row, col, KingSteps);
        return;
      }
      if piece == Pc(Pawn, true) {
        moves := WhitePawn(index);
        return;
      }
      if piece == Pc(Pawn, false) {
        moves := BlackPawn(index);
        return;
      }
    }

    /** The white pawn branch of `getLegalMoves`: raw offsets -8, -16 (from row 6), -7, -9. */
    method WhitePawn(index: int) returns (moves: seq<int>)
      requires Valid() && 0 <= index < 64
      ensures moves == WhitePawnMoves(board[..], index)
    {
      moves := [];
      if At(board[..], index - 8) == Empty {
        moves := moves + [index - 8];
      }
      if index / 8 == 6 && At(board[..], index - 8) == Empty && At(board[..], index - 16) == Empty {
        moves := moves + [index - 16];
      }
      if IsBlack(At(board[..], index - 7)) {
        moves := moves + [index - 7];
      }
      if IsBlack(At(board[..], index - 9)) {
        moves := moves + [index - 9];
      }
    }

    /** The black pawn branch of `getLegalMoves`: raw offsets +8, +16 (from row 1), +7, +9. */
    method BlackPawn(index: int) returns (moves: seq<int>)
      requires Valid() && 0 <= index < 64
      ensures moves == BlackPawnMoves(board[..], index)
    {
      moves := [];
      if At(board[..], index + 8) == Empty {
        moves := moves + [index + 8];
      }
      if index / 8 == 1 && At(board[..], index + 8) == Empty && At(board[..], index + 16) == Empty {
        moves := moves + [index + 16];
      }
      if IsWhite(At(board[..], index + 7)) {
        moves := moves + [index + 7];
      }
      if IsWhite(At(board[..], index + 9)) {
        moves := moves + [index + 9];
      }
    }

    // -------------------------------------------------------------------------
    // Check detection.

    /** `findKing(side)`: the first square holding the side's king. */
    method FindKing(white: bool) returns (k: Option<int>)
      requires Valid()
      ensures k == KingSquare(board[..], white)
    {
      for i := 0 to 64
        invariant FirstKing(board[..], white, i) == KingSquare(board[..], white)
      {
        var p := board[i];
        if p == Empty {
          continue;
        }
        if white && p == Pc(King, true) {
          return Some(i);
        }
        if !white && p == Pc(King, false) {
          return Some(i);
        }
      }
      return None;
    }

    /** `squareAttacked(index, byWhite)`: scans every piece of the side for one whose
        generated moves include the square. */
    method SquareAttacked(index: int, byWhite: bool) returns (attacked: bool)
      requires Valid()
      ensures attacked == Attacked(board[..], index, byWhite)
    {
      ghost var b := board[..];
      for i := 0 to 64
        invariant NoAttackerBelow(b, index, byWhite, i)
      {
        var p := board[i];
        if p == Empty {
          continue;
        }
        if byWhite && !IsWhite(p) {
          continue;
        }
        if !byWhite && !IsBlack(p) {
          continue;
        }
        var moves := GetLegalMoves(i, p);
        if index in moves {
          assert AttacksFrom(b, i, index, byWhite);
          return true;
        }
      }
      NotAttacked(b, index, byWhite);
      return false;
    }

    /** `isInCheck(side)`. */
    method IsInCheck(white: bool) returns (inCheck: bool)
      requires Valid()
      ensures inCheck == InCheck(board[..], white)
    {
      var kingIndex := FindKing(white);
      if kingIndex == None {
        return false;
      }
      inCheck := SquareAttacked(kingIndex.value, !white);
    }

    // -------------------------------------------------------------------------
    // The mobility test.

    /** `hasLegalMoves(side)`: tries every generated move of every piece of the side on the
        live board and answers whether one of them leaves the side not in check. Whichever
        way it returns, the board is exactly as it was. */
    method HasLegalMoves(white: bool) returns (hasMoves: bool)
      requires Valid()
      modifies board
      ensures board[..] == old(board[..])
      ensures hasMoves == HasEscape(old(board[..]), white)
    {
      ghost var start := board[..];
      for i := 0 to 64
        invariant board[..] == start
        invariant NoEscapeBelow(start, white, i)
      {
        var p := board[i];
        if p == Empty {
          continue;
        }
        if white && !IsWhite(p) {
          continue;
        }
        if !white && !IsBlack(p) {
          continue;
        }
        var found := TryPieceMoves(white, i);
        if found {
          return true;
        }
      }
      NoEscape(start, white);
      return false;
    }

    /** The inner loop of `hasLegalMoves` for the piece on square i: tries its generated
        moves in order and stops at the first that leaves the side not in check. */
    method TryPieceMoves(white: bool, i: int) returns (found: bool)
      requires Valid() && 0 <= i < 64 && Owns(white, board[i])
      modifies board
      ensures board[..] == old(board[..])
      ensures found == PieceEscapes(old(board[..]), white, i)
    {
      ghost var start := board[..];
      var moves := GetLegalMoves(i, board[i]);
      for k := 0 to |moves|
        invariant board[..] == start
        invariant AllStayInCheck(start, white, i, moves[..k])
      {
        var stillInCheck := TryMove(white, i, moves[k]);
        if !stillInCheck {
          assert Escape(start, white, i, moves[k]);
          return true;
        }
        StaysInCheckStep(start, white, i, moves, k);
      }
      assert moves[..|moves|] == moves;
      NoEscapeAmong(start, white, i, moves);
      return false;
    }

    /** One trial of `hasLegalMoves`: backs up both squares, moves the piece from i to m,
        tests check, and restores both squares. */
    method TryMove(white: bool, i: int, m: int) returns (stillInCheck: bool)
      requires Valid() && 0 <= i < 64
      modifies board
      ensures board[..] == old(board[..])
      ensures stillInCheck == InCheck(Trial(old(board[..]), i, m), white)
    {
      var backupFrom := board[i];
      var backupTo := At(board[..], m);
      if 0 <= m < 64 {
        board[m] := backupFrom;
      }
      board[i] := Empty;
      assert board[..] == Trial(old(board[..]), i, m);
      stillInCheck := IsInCheck(white);
      board[i] := backupFrom;
      if 0 <= m < 64 {
        board[m] := backupTo;
      }
      assert board[..] == old(board[..]);
    }

    // -------------------------------------------------------------------------
    // Moves and clicks.

    /** `movePiece(from, to)`: rejects an empty origin or a destination the piece does not
        generate (clearing the selection only); otherwise moves the piece, flips the turn,
        and reports check or checkmate for the side now to move. Whose piece it is, and
        whether the mover's own king is left in check, are not examined. */
    method MovePiece(from: int, to: int) returns (result: MoveResult)
      requires Valid() && 0 <= from < 64 && 0 <= to < 64
      modifies this, board
      ensures Valid() && board == old(board) && selectedIndex == None
      ensures !Accepts(old(board[..]), from, to) ==>
        result == Rejected && board[..] == old(board[..]) && whiteToMove == old(whiteToMove)
      ensures Accepts(old(board[..]), from, to) ==>
        board[..] == Apply(old(board[..]), from, to) && whiteToMove == !old(whiteToMove) &&
        result == Outcome(board[..], whiteToMove)
      ensures result.Checkmate? ==> result.whiteWins == old(whiteToMove)
    {
      var movingPiece := board[from];
      if movingPiece == Empty {
        selectedIndex := None;
        return Rejected;
      }
      var legal := GetLegalMoves(from, movingPiece);
      if to !in legal {
        selectedIndex := None;
        return Rejected;
      }
      board[to] := movingPiece;
      board[from] := Empty;
      whiteToMove := !whiteToMove;
      selectedIndex := None;
      var opponentIsWhite := whiteToMove;
      var opponentInCheck := IsInCheck(opponentIsWhite);
      var opponentHasMoves := HasLegalMoves(opponentIsWhite);
      if opponentInCheck && !opponentHasMoves {
        result := Checkmate(!opponentIsWhite);
      } else {
        result := Continues(opponentInCheck);
      }
    }

    /** `onSquareClick(index)`: with nothing selected, selects the square if it holds a
        piece of the side to move; a click on the selected square deselects it; any other
        click attempts the move from the selected square. */
    method OnSquareClick(index: int) returns (result: Option<MoveResult>)
      requires Valid() && SelectionOwned() && 0 <= index < 64
      modifies this, board
      ensures Valid() && SelectionOwned() && board == old(board)
      ensures old(selectedIndex).None? ==>
        result == None && board[..] == old(board[..]) && whiteToMove == old(whiteToMove) &&
        selectedIndex == (if Owns(whiteToMove, board[index]) then Some(index) else None)
      ensures old(selectedIndex) == Some(index) ==>
        result == None && board[..] == old(board[..]) && whiteToMove == old(whiteToMove) &&
        selectedIndex == None
      ensures old(selectedIndex).Some? && old(selectedIndex).value != index ==>
        var from := old(selectedIndex).value;
        result.Some? && selectedIndex == None &&
        (!Accepts(old(board[..]), from, index) ==>
          result.value == Rejected && board[..] == old(board[..]) && whiteToMove == old(whiteToMove)) &&
        (Accepts(old(board[..]), from, index) ==>
          Owns(old(whiteToMove), old(board[from])) &&
          board[..] == Apply(old(board[..]), from, index) && whiteToMove == !old(whiteToMove) &&
          result.value == Outcome(board[..], whiteToMove))
    {
      var piece := board[index];
      if selectedIndex == None {
        if piece == Empty {
          return None;
        }
        if whiteToMove && !IsWhite(piece) {
          return None;
        }
        if !whiteToMove && !IsBlack(piece) {
          return None;
        }
        selectedIndex := Some(index);
        return None;
      }
      if selectedIndex == Some(index) {
        selectedIndex := None;
        return None;
      }
      var moved := MovePiece(selectedIndex.value, index);
      return Some(moved);
    }
  }
}
