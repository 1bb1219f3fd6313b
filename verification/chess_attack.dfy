/**
 `is_attacked` of chess_game.py: a square is attacked by a colour when some
 piece of that colour has it among its destinations. The destinations used
 here are the castling-free ones of `PieceMoves`; `SourceRecursion` proves
 that this agrees with the source whenever the source's own recursion ends.
 */
module Attacks {
  import opened ChessBoard
  import opened PieceMoves

  /** The square of row-major board index `i`, the order of the source's two loops. */
  function SquareAt(i: int): Pos {
    Pos(i / 8, i % 8)
  }

  function IndexOf(p: Pos): int {
    8 * p.r + p.c
  }

  lemma SquareAtIndex(p: Pos)
    requires InBounds(p)
    ensures 0 <= IndexOf(p) < 64 && SquareAt(IndexOf(p)) == p
  {
  }

  lemma SquareAtInBounds(i: int)
    requires 0 <= i < 64
    ensures InBounds(SquareAt(i))
  {
  }

  /** The piece on `p` belongs to `side` and reaches `q`. */
  ghost predicate AttackerAt(g: Game, q: Pos, side: Color, p: Pos) {
    InBounds(p) && IsOwn(g.board, p, side) && q in AttackMoves(g, p)
  }

  function AttackedFrom(g: Game, q: Pos, side: Color, i: nat): (r: bool)
    requires i <= 64
    ensures r <==> exists j :: i <= j < 64 && AttackerAt(g, q, side, SquareAt(j))
    decreases 64 - i
  {
    if i == 64 then false
    else
      SquareAtInBounds(i);
      var p := SquareAt(i);
      (IsOwn(g.board, p, side) && q in AttackMoves(g, p)) || AttackedFrom(g, q, side, i + 1)
  }

  lemma ScanCoversBoard(g: Game, q: Pos, side: Color)
    ensures (exists j :: 0 <= j < 64 && AttackerAt(g, q, side, SquareAt(j))) <==> exists p :: AttackerAt(g, q, side, p)
  {
    if exists p :: AttackerAt(g, q, side, p) {
      var p :| AttackerAt(g, q, side, p);
      SquareAtIndex(p);
    }
  }

  /** Some piece of colour `side`, anywhere on the board, has `q` among its destinations. */
  function IsAttacked(g: Game, q: Pos, side: Color): (r: bool)
    ensures r <==> exists p :: AttackerAt(g, q, side, p)
  {
    ScanCoversBoard(g, q, side);
    AttackedFrom(g, q, side, 0)
  }
}
