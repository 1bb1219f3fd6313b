/**
 The full `get_moves` of chess_game.py: the castling-free destinations plus
 the two-square king moves of castling, whose conditions consult the attack
 test. Layering the two keeps the definition well-founded.
 */
module MoveGen {
  import opened Options
  import opened ChessBoard
  import opened PieceMoves
  import opened Attacks

  /** The back rank a colour starts on. */
  function HomeRow(c: Color): int {
    if c == White then 7 else 0
  }

  function KingSideRight(rights: Rights, c: Color): bool {
    if c == White then rights.whiteKing else rights.blackKing
  }

  function QueenSideRight(rights: Rights, c: Color): bool {
    if c == White then rights.whiteQueen else rights.blackQueen
  }

  /** King-side castling: right held, columns 5 and 6 empty, columns 4, 5 and 6 not attacked. */
  predicate CanCastleKingSide(g: Game, c: Color) {
    var row := HomeRow(c);
    var foe := Opposite(c);
    && KingSideRight(g.castling, c)
    && IsEmpty(g.board, Pos(row, 5)) && IsEmpty(g.board, Pos(row, 6))
    && !IsAttacked(g, Pos(row, 4), foe) && !IsAttacked(g, Pos(row, 5), foe) && !IsAttacked(g, Pos(row, 6), foe)
  }

  /** Queen-side castling: right held, columns 1 to 3 empty, columns 4, 3 and 2 not attacked. */
  predicate CanCastleQueenSide(g: Game, c: Color) {
    var row := HomeRow(c);
    var foe := Opposite(c);
    && QueenSideRight(g.castling, c)
    && IsEmpty(g.board, Pos(row, 1)) && IsEmpty(g.board, Pos(row, 2)) && IsEmpty(g.board, Pos(row, 3))
    && !IsAttacked(g, Pos(row, 4), foe) && !IsAttacked(g, Pos(row, 3), foe) && !IsAttacked(g, Pos(row, 2), foe)
  }

  /** Column 6 of `row` when king-side castling is allowed, then column 2 when queen-side is. */
  function CastleList(row: int, kingSide: bool, queenSide: bool): seq<Pos> {
    (if kingSide then [Pos(row, 6)] else []) + (if queenSide then [Pos(row, 2)] else [])
  }

  /**
   The castling destinations of a king of colour `c`. As in the source they
   depend on the rights and the squares only, not on where the king stands.
   */
  function CastleMoves(g: Game, c: Color): (r: seq<Pos>)
    ensures forall q | q in r :: InBounds(q) && q.r == HomeRow(c) && IsEmpty(g.board, q)
    ensures Pos(HomeRow(c), 6) in r <==> CanCastleKingSide(g, c)
    ensures Pos(HomeRow(c), 2) in r <==> CanCastleQueenSide(g, c)
    ensures forall q | q in r :: q == Pos(HomeRow(c), 6) || q == Pos(HomeRow(c), 2)
  {
    CastleList(HomeRow(c), CanCastleKingSide(g, c), CanCastleQueenSide(g, c))
  }

  /** `get_moves`: the movement rule's squares, plus castling for a king. */
  function Moves(g: Game, p: Pos): (r: seq<Pos>)
    requires InBounds(p)
    ensures forall q | q in r :: InBounds(q)
    ensures forall q | q in r && Some(q) != g.enPassant :: !IsOwn(g.board, q, Side(Get(g.board, p)))
    ensures forall q :: q in r <==>
      q in AttackMoves(g, p) || (HasKind(Get(g.board, p), King) && q in CastleMoves(g, Side(Get(g.board, p))))
  {
    AttackMoves(g, p) + (if HasKind(Get(g.board, p), King) then CastleMoves(g, Side(Get(g.board, p))) else [])
  }

  /**
   A destination that castling adds and the attack layer lacks is an empty
   square on the king's own back rank, at column 6 or 2.
   */
  lemma CastleOnlyDestinations(g: Game, p: Pos, q: Pos)
    requires InBounds(p)
    requires q in Moves(g, p) && q !in AttackMoves(g, p)
    ensures HasKind(Get(g.board, p), King)
    ensures q.r == HomeRow(Side(Get(g.board, p))) && (q.c == 6 || q.c == 2)
    ensures IsEmpty(g.board, q)
  {
  }

  /**
   Castling destinations are never occupied and never on the opponent's back
   rank, so for an occupied square, or a square on the other colour's back
   rank, both layers agree on membership.
   */
  lemma LayersAgree(g: Game, p: Pos, q: Pos)
    requires InBounds(p) && InBounds(q)
    requires !IsEmpty(g.board, q) || q.r != HomeRow(Side(Get(g.board, p)))
    ensures q in Moves(g, p) <==> q in AttackMoves(g, p)
  {
    if q in Moves(g, p) && q !in AttackMoves(g, p) {
      CastleOnlyDestinations(g, p, q);
    }
  }
}
