// Pieces, their one-letter codes, the side classifier and the starting layout.

module Pieces {

  datatype Option<T> = None | Some(value: T)

  datatype Kind = Pawn | Knight | Bishop | Rook | Queen | King

  /** A board cell: the empty square (the code "") or a piece of one side. */
  datatype Piece = Empty | Pc(kind: Kind, white: bool)

  /** A board is 64 cells, index = row * 8 + column, row 0 being black's back rank. */
  type Board = b: seq<Piece> | |b| == 64 witness seq(64, _ => Empty)

  /** The index of the square at row r, column c. */
  function Square(r: int, c: int): int { r * 8 + c }

  function Row(i: int): int { i / 8 }

  function Col(i: int): int { i % 8 }

  predicate IsWhite(p: Piece) { p.Pc? && p.white }

  predicate IsBlack(p: Piece) { p.Pc? && !p.white }

  /** The piece belongs to the given side (`white` true for white). */
  predicate Owns(white: bool, p: Piece) { if white then IsWhite(p) else IsBlack(p) }

  /** Both cells hold pieces of the same side. */
  predicate SameSide(p: Piece, q: Piece) { (IsWhite(p) && IsWhite(q)) || (IsBlack(p) && IsBlack(q)) }

  /** Both cells hold pieces of opposite sides. */
  predicate Opposes(p: Piece, q: Piece) { (IsWhite(p) && IsBlack(q)) || (IsBlack(p) && IsWhite(q)) }

  // ---------------------------------------------------------------------------
  // The one-letter codes the board holds, and the case-based classifier on them.

  function LowerLetter(k: Kind): char {
    match k
    case Pawn => 'p'
    case Knight => 'n'
    case Bishop => 'b'
    case Rook => 'r'
    case Queen => 'q'
    case King => 'k'
  }

  function UpperChar(ch: char): char {
    if 'a' <= ch <= 'z' then (ch as int - 32) as char else ch
  }

  function LowerChar(ch: char): char {
    if 'A' <= ch <= 'Z' then (ch as int + 32) as char else ch
  }

  function ToUpper(s: string): string {
    if s == "" then "" else [UpperChar(s[0])] + ToUpper(s[1..])
  }

  function ToLower(s: string): string {
    if s == "" then "" else [LowerChar(s[0])] + ToLower(s[1..])
  }

  /** The code of a cell: "" for empty, an upper-case letter for white, lower-case for black. */
  function Code(p: Piece): string {
    match p
    case Empty => ""
    case Pc(k, w) => if w then [UpperChar(LowerLetter(k))] else [LowerLetter(k)]
  }

  /** `isWhite` on a code: non-empty and unchanged by upper-casing. */
  predicate IsWhiteCode(s: string) { s != "" && s == ToUpper(s) }

  /** `isBlack` on a code: non-empty and unchanged by lower-casing. */
  predicate IsBlackCode(s: string) { s != "" && s == ToLower(s) }

  /** Reads a code back; None for anything that is not one of the 13 codes. */
  function Decode(s: string): Option<Piece> {
    if s == "" then Some(Empty)
    else if |s| != 1 then None
    else match s[0]
      case 'p' => Some(Pc(Pawn, false))
      case 'n' => Some(Pc(Knight, false))
      case 'b' => Some(Pc(Bishop, false))
      case 'r' => Some(Pc(Rook, false))
      case 'q' => Some(Pc(Queen, false))
      case 'k' => Some(Pc(King, false))
      case 'P' => Some(Pc(Pawn, true))
      case 'N' => Some(Pc(Knight, true))
      case 'B' => Some(Pc(Bishop, true))
      case 'R' => Some(Pc(Rook, true))
      case 'Q' => Some(Pc(Queen, true))
      case 'K' => Some(Pc(King, true))
      case _ => None
  }

  /** Every cell has a code that reads back as itself. */
  lemma CodeRoundTrip(p: Piece)
    ensures Decode(Code(p)) == Some(p)
  {
    match p
    case Empty =>
    case Pc(k, w) =>
      match k
      case Pawn =>
      case Knight =>
      case Bishop =>
      case Rook =>
      case Queen =>
      case King =>
  }

  /** The case-based classifier on codes agrees with the sides of the datatype:
      "" is neither, an upper-case letter is white, a lower-case letter is black. */
  lemma ClassifierOnCodes(p: Piece)
    ensures IsWhiteCode(Code(p)) <==> IsWhite(p)
    ensures IsBlackCode(Code(p)) <==> IsBlack(p)
  {
    match p
    case Empty =>
    case Pc(k, w) =>
      var s := Code(p);
      assert |s| == 1;
      assert ToUpper(s) == [UpperChar(s[0])] && ToLower(s) == [LowerChar(s[0])];
      match k
      case Pawn =>
      case Knight =>
      case Bishop =>
      case Rook =>
      case Queen =>
      case King =>
  }

  /** On the codes the board holds, the case test puts "" on neither side and every
      piece's letter on exactly one. */
  lemma ExactlyOneSide(p: Piece)
    ensures !IsWhiteCode(Code(Empty)) && !IsBlackCode(Code(Empty))
    ensures p != Empty ==> (IsWhiteCode(Code(p)) <==> !IsBlackCode(Code(p)))
  {
    ClassifierOnCodes(p);
  }

  // ---------------------------------------------------------------------------
  // The starting layout.

  function BackRank(white: bool): (r: seq<Piece>)
    ensures |r| == 8
  {
    [Pc(Rook, white), Pc(Knight, white), Pc(Bishop, white), Pc(Queen, white),
     Pc(King, white), Pc(Bishop, white), Pc(Knight, white), Pc(Rook, white)]
  }

  function PawnRank(white: bool): (r: seq<Piece>)
    ensures |r| == 8
  {
    seq(8, _ => Pc(Pawn, white))
  }

  /** Black on rows 0 and 1, four empty rows, white on rows 6 and 7. */
  function InitialBoard(): Board {
    BackRank(false) + PawnRank(false) + seq(32, _ => Empty) + PawnRank(true) + BackRank(true)
  }

  /** The piece with its side swapped. */
  function Swap(p: Piece): Piece {
    match p
    case Empty => Empty
    case Pc(k, w) => Pc(k, !w)
  }

  /** The starting layout: the middle four rows are empty, the two sides mirror each
      other across the middle of the board, and each side has one king, on column 4. */
  lemma InitialLayout()
    ensures forall i :: 16 <= i < 48 ==> InitialBoard()[i] == Empty
    ensures forall i :: 0 <= i < 16 ==> IsBlack(InitialBoard()[i])
    ensures forall i :: 48 <= i < 64 ==> IsWhite(InitialBoard()[i])
    ensures forall r, c :: 0 <= r < 8 && 0 <= c < 8 ==>
      InitialBoard()[Square(7 - r, c)] == Swap(InitialBoard()[Square(r, c)])
    ensures forall i :: 0 <= i < 64 && InitialBoard()[i].Pc? && InitialBoard()[i].kind == King ==>
      i == 4 || i == 60
    ensures InitialBoard()[4] == Pc(King, false) && InitialBoard()[60] == Pc(King, true)
  {
    var b := InitialBoard();
    forall r, c | 0 <= r < 8 && 0 <= c < 8
      ensures b[Square(7 - r, c)] == Swap(b[Square(r, c)])
    {
      if r == 0 {
        assert b[56 + c] == BackRank(true)[c] && b[c] == BackRank(false)[c];
      } else if r == 1 {
        assert b[48 + c] == PawnRank(true)[c] && b[8 + c] == PawnRank(false)[c];
      } else if r == 6 {
        assert b[8 + c] == PawnRank(false)[c] && b[48 + c] == PawnRank(true)[c];
      } else if r == 7 {
        assert b[c] == BackRank(false)[c] && b[56 + c] == BackRank(true)[c];
      }
    }
  }
}
