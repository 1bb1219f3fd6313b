/**
 Games played from the constructor's state by successive `make_move` calls,
 and what holds in every position reached that way: the en-passant square
 is always empty, so the en-passant paths of move generation and of
 `make_move` are never taken; castling rights are never regained; turns
 alternate.
 */
module Play {
  import opened Options
  import opened ChessBoard
  import opened PieceMoves
  import opened MoveGen
  import opened Execute

  predicate OnBoard(ms: seq<Move>) {
    forall i | 0 <= i < |ms| :: InBounds(ms[i].from) && InBounds(ms[i].to)
  }

  /** The state after applying the moves of `ms` in order. */
  function PlayMoves(g: Game, ms: seq<Move>): Game
    requires OnBoard(ms)
    decreases |ms|
  {
    if ms == [] then g else PlayMoves(MakeMove(g, ms[0].from, ms[0].to), ms[1..])
  }

  lemma {:induction false} PlayKeepsEnPassantEmpty(g: Game, ms: seq<Move>)
    requires OnBoard(ms)
    requires g.enPassant == None || ms != []
    ensures PlayMoves(g, ms).enPassant == None
    decreases |ms|
  {
    if ms != [] {
      PlayKeepsEnPassantEmpty(MakeMove(g, ms[0].from, ms[0].to), ms[1..]);
    }
  }

  lemma {:induction false} PlayOnlyDropsRights(g: Game, ms: seq<Move>)
    requires OnBoard(ms)
    ensures RightsOnlyDrop(g.castling, PlayMoves(g, ms).castling)
    decreases |ms|
  {
    if ms != [] {
      PlayOnlyDropsRights(MakeMove(g, ms[0].from, ms[0].to), ms[1..]);
    }
  }

  lemma {:induction false} PlayAlternatesTurns(g: Game, ms: seq<Move>)
    requires OnBoard(ms)
    ensures PlayMoves(g, ms).turn == if |ms| % 2 == 0 then g.turn else Opposite(g.turn)
    decreases |ms|
  {
    if ms != [] {
      var next := MakeMove(g, ms[0].from, ms[0].to);
      var rest := ms[1..];
      assert PlayMoves(g, ms) == PlayMoves(next, rest);
      assert next.turn == Opposite(g.turn) && Opposite(next.turn) == g.turn;
      assert |rest| % 2 == 0 <==> |ms| % 2 == 1;
      PlayAlternatesTurns(next, rest);
    }
  }

  /** Without an en-passant square, a pawn's diagonal destinations all hold enemy pieces. */
  lemma PawnDiagonalsNeedEnemy(g: Game, p: Pos, q: Pos)
    requires InBounds(p) && g.enPassant == None
    requires HasKind(Get(g.board, p), Pawn) && q in Moves(g, p) && q.c != p.c
    ensures IsEnemy(g.board, q, Side(Get(g.board, p)))
  {
    assert q in AttackMoves(g, p);
  }

  /**
   Every position reached from the start has no en-passant square, so no
   pawn of it captures onto an empty square, and no move from it takes the
   en-passant capture path of `make_move`.
   */
  lemma EnPassantIsDead(ms: seq<Move>, p: Pos, q: Pos)
    requires OnBoard(ms) && InBounds(p)
    ensures PlayMoves(Init(), ms).enPassant == None
    ensures var g := PlayMoves(Init(), ms);
      HasKind(Get(g.board, p), Pawn) && q in Moves(g, p) && q.c != p.c ==> IsEnemy(g.board, q, Side(Get(g.board, p)))
    ensures !CapturesEnPassant(PlayMoves(Init(), ms), p, q)
  {
    PlayKeepsEnPassantEmpty(Init(), ms);
    var g := PlayMoves(Init(), ms);
    if HasKind(Get(g.board, p), Pawn) && q in Moves(g, p) && q.c != p.c {
      PawnDiagonalsNeedEnemy(g, p, q);
    }
  }

  /** Castling rights lost during a game from the start are never regained. */
  lemma RightsNeverRegained(ms: seq<Move>, more: seq<Move>)
    requires OnBoard(ms) && OnBoard(more)
    ensures RightsOnlyDrop(PlayMoves(Init(), ms).castling, PlayMoves(PlayMoves(Init(), ms), more).castling)
  {
    PlayOnlyDropsRights(PlayMoves(Init(), ms), more);
  }
}
