/**
 The position of the chess engine in chess_game.py: an 8x8 grid of cells,
 the side to move, the four castling flags, the en-passant square and the
 two move counters, together with the square helpers the engine reads the
 grid through.
 */
module ChessBoard {
  import opened Options

  datatype Color = White | Black
  datatype Kind = Pawn | Knight | Bishop | Rook | Queen | King
  datatype Piece = Piece(color: Color, kind: Kind)

  /** A cell holds the empty string or one piece letter; upper case is White. */
  datatype Cell = Empty | Occupied(piece: Piece)

  /** A (row, column) pair; row 0 is Black's back rank, row 7 White's. */
  datatype Pos = Pos(r: int, c: int)

  /** A move as the engine passes it around: a (start, end) pair of squares. */
  datatype Move = Move(from: Pos, to: Pos)

  predicate InBounds(p: Pos) {
    0 <= p.r < 8 && 0 <= p.c < 8
  }

  function Opposite(c: Color): Color {
    if c == White then Black else White
  }

  const EmptyRow: seq<Cell> := seq(8, _ => Empty)

  type Board = b: seq<seq<Cell>> | |b| == 8 && forall i | 0 <= i < 8 :: |b[i]| == 8
    witness seq(8, _ => EmptyRow)

  function Get(b: Board, p: Pos): Cell
    requires InBounds(p)
  {
    b[p.r][p.c]
  }

  /** The board with the cell at `p` replaced; every other cell is kept. */
  function Set(b: Board, p: Pos, x: Cell): (r: Board)
    requires InBounds(p)
    ensures Get(r, p) == x
    ensures forall q | InBounds(q) && q != p :: Get(r, q) == Get(b, q)
  {
    b[p.r := b[p.r][p.c := x]]
  }

  /**
   The colour the source gives a cell: `piece.isupper()` is true only for a
   White letter, so the empty cell counts as Black.
   */
  function Side(x: Cell): Color {
    if x.Occupied? && x.piece.color == White then White else Black
  }

  predicate IsEmpty(b: Board, p: Pos)
    requires InBounds(p)
  {
    Get(b, p) == Empty
  }

  /** A piece of the colour opposite to `color` stands on `p`. */
  predicate IsEnemy(b: Board, p: Pos, color: Color)
    requires InBounds(p)
  {
    Get(b, p).Occupied? && Get(b, p).piece.color != color
  }

  /** A piece of colour `color` stands on `p`. */
  predicate IsOwn(b: Board, p: Pos, color: Color)
    requires InBounds(p)
  {
    Get(b, p).Occupied? && Get(b, p).piece.color == color
  }

  predicate HasKind(x: Cell, k: Kind) {
    x.Occupied? && x.piece.kind == k
  }

  /** Castling flags, `castling[colour][wing]` in the source. */
  datatype Rights = Rights(whiteKing: bool, whiteQueen: bool, blackKing: bool, blackQueen: bool)

  datatype Game = Game(
    board: Board,
    turn: Color,
    castling: Rights,
    enPassant: Option<Pos>,
    halfmove: nat,
    fullmove: nat)

  const BackRank: seq<Kind> := [Rook, Knight, Bishop, Queen, King, Bishop, Knight, Rook]

  function InitialRow(r: int): (row: seq<Cell>)
    ensures |row| == 8
  {
    if r == 0 then seq(8, c requires 0 <= c < 8 => Occupied(Piece(Black, BackRank[c])))
    else if r == 1 then seq(8, _ => Occupied(Piece(Black, Pawn)))
    else if r == 6 then seq(8, _ => Occupied(Piece(White, Pawn)))
    else if r == 7 then seq(8, c requires 0 <= c < 8 => Occupied(Piece(White, BackRank[c])))
    else EmptyRow
  }

  /** The cell seen from the other side of the board: the same piece in the other colour. */
  function Mirror(x: Cell): Cell {
    if x.Empty? then Empty else Occupied(Piece(Opposite(x.piece.color), x.piece.kind))
  }

  /** The grid `init_board` builds. */
  function InitialBoard(): Board {
    seq(8, r => InitialRow(r))
  }

  /**
   The two outer rows on each side of the initial grid are full and the
   middle is empty, and the grid is the same from either side with the
   colours swapped.
   */
  lemma InitialBoardSymmetric()
    ensures forall p | InBounds(p) :: (Get(InitialBoard(), p).Occupied? <==> p.r < 2 || 6 <= p.r)
    ensures forall p | InBounds(p) :: Get(InitialBoard(), Pos(7 - p.r, p.c)) == Mirror(Get(InitialBoard(), p))
  {
    forall p | InBounds(p)
      ensures Get(InitialBoard(), p).Occupied? <==> p.r < 2 || 6 <= p.r
      ensures Get(InitialBoard(), Pos(7 - p.r, p.c)) == Mirror(Get(InitialBoard(), p))
    {
      InitialRowShape(p.r, p.c);
    }
  }

  lemma InitialRowShape(r: int, c: int)
    requires 0 <= r < 8 && 0 <= c < 8
    ensures InitialRow(r)[c].Occupied? <==> r < 2 || 6 <= r
    ensures InitialRow(7 - r)[c] == Mirror(InitialRow(r)[c])
  {
  }

  lemma InitialRowSide(r: int, c: int)
    requires 0 <= r < 8 && 0 <= c < 8
    ensures InitialRow(r)[c].Occupied? ==> InitialRow(r)[c].piece.color == (if r < 2 then Black else White)
  {
  }

  /**
   White's side of the initial grid: a rank of pawns in front of a back rank
   of rook, knight and bishop mirrored about the queen on column 3 and the
   king on column 4.
   */
  lemma InitialWhiteRanks()
    ensures forall c | 0 <= c < 8 :: Get(InitialBoard(), Pos(6, c)) == Occupied(Piece(White, Pawn))
    ensures forall c | 0 <= c < 8 :: Get(InitialBoard(), Pos(7, c)).Occupied? && Get(InitialBoard(), Pos(7, c)).piece.color == White
    ensures Get(InitialBoard(), Pos(7, 0)).piece.kind == Rook && Get(InitialBoard(), Pos(7, 1)).piece.kind == Knight
    ensures Get(InitialBoard(), Pos(7, 2)).piece.kind == Bishop
    ensures Get(InitialBoard(), Pos(7, 3)).piece.kind == Queen && Get(InitialBoard(), Pos(7, 4)).piece.kind == King
    ensures forall c | 0 <= c < 3 :: Get(InitialBoard(), Pos(7, 7 - c)) == Get(InitialBoard(), Pos(7, c))
  {
    var b := InitialBoard();
    assert b[6] == InitialRow(6) && b[7] == InitialRow(7);
  }

  /** The state built by the constructor: White to move, every right held. */
  function Init(): (g: Game)
    ensures g.turn == White && g.enPassant == None
    ensures g.castling == Rights(true, true, true, true)
    ensures g.halfmove == 0 && g.fullmove == 1
    ensures Get(g.board, Pos(7, 4)) == Occupied(Piece(White, King))
    ensures Get(g.board, Pos(0, 4)) == Occupied(Piece(Black, King))
    ensures forall p | InBounds(p) && 2 <= p.r < 6 :: IsEmpty(g.board, p)
    ensures forall p | InBounds(p) :: Get(g.board, p).Occupied? ==> Side(Get(g.board, p)) == (if p.r < 2 then Black else White)
  {
    var b := InitialBoard();
    assert Get(b, Pos(7, 4)) == Occupied(Piece(White, King)) && Get(b, Pos(0, 4)) == Occupied(Piece(Black, King)) by {
      assert b[7] == InitialRow(7) && b[0] == InitialRow(0);
    }
    assert forall p | InBounds(p) ::
      && (2 <= p.r < 6 ==> IsEmpty(b, p))
      && (Get(b, p).Occupied? ==> Side(Get(b, p)) == (if p.r < 2 then Black else White))
    by {
      forall p | InBounds(p)
        ensures 2 <= p.r < 6 ==> IsEmpty(b, p)
        ensures Get(b, p).Occupied? ==> Side(Get(b, p)) == (if p.r < 2 then Black else White)
      {
        assert Get(b, p) == InitialRow(p.r)[p.c];
        InitialRowShape(p.r, p.c);
        InitialRowSide(p.r, p.c);
      }
    }
    Game(b, White, Rights(true, true, true, true), None, 0, 1)
  }
}
