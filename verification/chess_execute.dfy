/**
 `make_move` of chess_game.py: relocate the piece, then the pawn, king and
 rook special cases, then the en-passant square, the counters and the turn.
 The function returns the new state instead of mutating the old one.
 */
module Execute {
  import opened Options
  import opened ChessBoard
  import opened PieceMoves
  import opened MoveGen

  /** Two `set_piece` calls: the content of `from` onto `to`, then `from` emptied. */
  function Relocate(b: Board, from: Pos, to: Pos): Board
    requires InBounds(from) && InBounds(to)
  {
    Set(Set(b, to, Get(b, from)), from, Empty)
  }

  /**
   The row the source promotes a pawn on: row 7 for White and row 0 for
   Black, which is the pawn's own back rank rather than the far one.
   */
  function PromotionRow(c: Color): int {
    if c == White then 7 else 0
  }

  predicate IsDoubleStep(start: Pos, end: Pos) {
    Abs(start.r - end.r) == 2
  }

  predicate IsCastlingStep(start: Pos, end: Pos) {
    Abs(start.c - end.c) == 2
  }

  /** A pawn move that is neither a double step nor onto the en-passant square ends on its promotion row. */
  predicate Promotes(g: Game, start: Pos, end: Pos)
    requires InBounds(start)
  {
    var piece := Get(g.board, start);
    HasKind(piece, Pawn) && !IsDoubleStep(start, end) && g.enPassant != Some(end)
    && end.r == PromotionRow(Side(piece))
  }

  /** A pawn move onto the en-passant square that is not a double step. */
  predicate CapturesEnPassant(g: Game, start: Pos, end: Pos)
    requires InBounds(start)
  {
    HasKind(Get(g.board, start), Pawn) && !IsDoubleStep(start, end) && g.enPassant == Some(end)
  }

  function MovedBoard(g: Game, start: Pos, end: Pos): Board
    requires InBounds(start) && InBounds(end)
  {
    var piece := Get(g.board, start);
    var mover := Side(piece);
    var b1 := Relocate(g.board, start, end);
    if HasKind(piece, Pawn) then
      if IsDoubleStep(start, end) then b1
      else if g.enPassant == Some(end) then Set(b1, Pos(start.r, end.c), Empty)
      else if end.r == PromotionRow(mover) then Set(b1, end, Occupied(Piece(mover, Queen)))
      else b1
    else if HasKind(piece, King) && IsCastlingStep(start, end) then
      if end.c == 6 then Relocate(b1, Pos(end.r, 7), Pos(end.r, 5))
      else if end.c == 2 then Relocate(b1, Pos(end.r, 0), Pos(end.r, 3))
      else b1
    else b1
  }

  function UpdatedRights(rights: Rights, piece: Cell, start: Pos): Rights {
    if HasKind(piece, King) then
      if Side(piece) == White then rights.(whiteKing := false, whiteQueen := false)
      else rights.(blackKing := false, blackQueen := false)
    else if HasKind(piece, Rook) then
      if start == Pos(7, 0) then rights.(whiteQueen := false)
      else if start == Pos(7, 7) then rights.(whiteKing := false)
      else if start == Pos(0, 0) then rights.(blackQueen := false)
      else if start == Pos(0, 7) then rights.(blackKing := false)
      else rights
    else rights
  }

  /** Every flag that is set afterwards was set before: rights are never granted. */
  predicate RightsOnlyDrop(before: Rights, after: Rights) {
    && (after.whiteKing ==> before.whiteKing)
    && (after.whiteQueen ==> before.whiteQueen)
    && (after.blackKing ==> before.blackKing)
    && (after.blackQueen ==> before.blackQueen)
  }

  /** The squares beyond `start` and `end` that a move may rewrite. */
  ghost predicate Touched(g: Game, start: Pos, end: Pos, q: Pos)
    requires InBounds(start)
  {
    var piece := Get(g.board, start);
    || (CapturesEnPassant(g, start, end) && q == Pos(start.r, end.c))
    || (HasKind(piece, King) && IsCastlingStep(start, end) && end.c == 6 && (q == Pos(end.r, 7) || q == Pos(end.r, 5)))
    || (HasKind(piece, King) && IsCastlingStep(start, end) && end.c == 2 && (q == Pos(end.r, 0) || q == Pos(end.r, 3)))
  }

  /**
   `make_move`. The double-step square the source records for a pawn is
   overwritten by the unconditional reset that follows it, so the new state
   never has an en-passant square.
   */
  function MakeMove(g: Game, start: Pos, end: Pos): (r: Game)
    requires InBounds(start) && InBounds(end)
    // the board: start emptied, the piece (or its queen) on end, nothing else
    // changed beyond the castling rook's and the en-passant victim's squares
    ensures start != end ==> IsEmpty(r.board, start)
    ensures start != end && !(CapturesEnPassant(g, start, end) && start.r == end.r) ==>
      Get(r.board, end) ==
        (if Promotes(g, start, end) then Occupied(Piece(Side(Get(g.board, start)), Queen)) else Get(g.board, start))
    ensures forall q | InBounds(q) && q != start && q != end && !Touched(g, start, end, q) ::
      Get(r.board, q) == Get(g.board, q)
    ensures CapturesEnPassant(g, start, end) && start.r != end.r ==> IsEmpty(r.board, Pos(start.r, end.c))
    // castling from column 4: the corner piece moves beside the king, the corner is emptied
    ensures HasKind(Get(g.board, start), King) && start.c == 4 && end.c == 6 ==>
      Get(r.board, Pos(end.r, 5)) == Get(g.board, Pos(end.r, 7)) && IsEmpty(r.board, Pos(end.r, 7))
    ensures HasKind(Get(g.board, start), King) && start.c == 4 && end.c == 2 ==>
      Get(r.board, Pos(end.r, 3)) == Get(g.board, Pos(end.r, 0)) && IsEmpty(r.board, Pos(end.r, 0))
    // castling flags: a king move clears both of its colour's flags, a rook
    // leaving a corner clears that corner's flag whatever the rook's colour
    ensures var piece := Get(g.board, start);
      && (r.castling.whiteKing <==> g.castling.whiteKing && !(HasKind(piece, King) && Side(piece) == White)
                                    && !(HasKind(piece, Rook) && start == Pos(7, 7)))
      && (r.castling.whiteQueen <==> g.castling.whiteQueen && !(HasKind(piece, King) && Side(piece) == White)
                                     && !(HasKind(piece, Rook) && start == Pos(7, 0)))
      && (r.castling.blackKing <==> g.castling.blackKing && !(HasKind(piece, King) && Side(piece) == Black)
                                    && !(HasKind(piece, Rook) && start == Pos(0, 7)))
      && (r.castling.blackQueen <==> g.castling.blackQueen && !(HasKind(piece, King) && Side(piece) == Black)
                                     && !(HasKind(piece, Rook) && start == Pos(0, 0)))
    ensures r.enPassant == None
    ensures r.turn == Opposite(g.turn)
    ensures RightsOnlyDrop(g.castling, r.castling)
    ensures r.halfmove == 0 <==> HasKind(Get(g.board, start), Pawn) || Get(g.board, end).Occupied?
    ensures r.halfmove != 0 ==> r.halfmove == g.halfmove + 1
    ensures r.fullmove == g.fullmove + 1 <==> Side(Get(g.board, start)) == Black
    ensures r.fullmove == g.fullmove || r.fullmove == g.fullmove + 1
  {
    var piece := Get(g.board, start);
    var captured := Get(g.board, end);
    Game(
      MovedBoard(g, start, end),
      Opposite(g.turn),
      UpdatedRights(g.castling, piece, start),
      None,
      if HasKind(piece, Pawn) || captured != Empty then 0 else g.halfmove + 1,
      if Side(piece) == White then g.fullmove else g.fullmove + 1)
  }

  /**
   The promotion row is the pawn's own back rank: a White pawn reaching row 0
   stays a pawn, a Black pawn reaching row 7 stays a pawn.
   */
  lemma PromotionRowIsHomeRow(g: Game, start: Pos, end: Pos)
    requires InBounds(start) && InBounds(end) && start != end
    requires HasKind(Get(g.board, start), Pawn) && !IsDoubleStep(start, end) && g.enPassant != Some(end)
    ensures Get(MakeMove(g, start, end).board, end).piece.kind == Queen <==>
      end.r == HomeRow(Side(Get(g.board, start)))
  {
  }

  /**
   No pawn destination lies on the row the source promotes on, so a pawn
   moved to a square `get_moves` offers is never promoted.
   */
  lemma PawnsNeverPromote(g: Game, p: Pos, q: Pos)
    requires InBounds(p) && HasKind(Get(g.board, p), Pawn)
    requires q in Moves(g, p)
    ensures q.r != PromotionRow(Side(Get(g.board, p)))
    ensures !Promotes(g, p, q)
  {
  }
}
